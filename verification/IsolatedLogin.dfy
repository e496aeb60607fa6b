/** The isolated login of src/login.rs, with the session guard of src/isolated_spawn.rs: run a
    login in a private directory, check that the shared credential did not move, harvest, and
    tear everything down whatever happens.

    Every await takes one turn from a script: whether the future is dropped in it, how the
    operation ends, and what the world looks like afterwards. The spawned child may leave
    anything at all in the isolated item and in the isolated state file. */
module IsolatedLogin {
  import opened Wrappers
  import opened ClaudeState

  type Blob = string

  /** An injective hash. */
  datatype Digest = Digest(of: Blob)

  /** What stands at the path of the isolated directory. */
  datatype Dir = NoDir | SymLink | OtherFile | RealDir(json: Content)

  datatype LoginError =
    | RequiresTty
    | SharedUnreadable
    | UnsafeDir
    | ForeignOwnership
    | DirFailed
    | SeedFailed
    | SpawnFailed
    | SharedCredentialMutated
    | ItemUnreadable
    | StateUnreadable(error: StateError)

  datatype LoginCapture = Captured(credential: Blob, identity: OauthAccount) | Incomplete

  /** `None` stands for a future that was dropped: nobody receives a result. */
  type Outcome = Option<Result<LoginCapture, LoginError>>

  /** How an await ends. `item` and `json` matter only while the child runs. */
  datatype Turn = Turn(dropped: bool, ok: bool, shared: Option<Blob>, item: Option<Blob>, json: Content)

  /** What happened to an armed session, for the contracts to speak of. */
  datatype Log = Log(
    armed: bool,
    before: Option<Blob>,            // the shared item when it was hashed before the child
    rechecked: bool,
    after: Option<Blob>,             // and when it was hashed after it
    found: Option<Blob>,             // the isolated item when teardown began
    foundDir: Dir,                   // the isolated directory when teardown began
    deletes: nat,                    // attempts to delete the item
    deleted: bool,                   // one of them succeeded
    removed: bool)                   // a removal of the directory succeeded

  const TEARDOWN_DELETE_RETRIES := 3

  function HashOf(item: Option<Blob>): Option<Digest> {
    match item
    case Some(blob) => Some(Digest(blob))
    case None => None
  }

  /** The seed of the isolated state file: onboarding keys, and no identity. */
  function OnboardingSeed(cwd: string): Content {
    Doc(Obj(map[
      "hasCompletedOnboarding" := Bool(true),
      "theme" := Str("dark"),
      "hasTrustDialogAccepted" := Bool(true),
      "projects" := Obj(map[cwd := Obj(map["hasTrustDialogAccepted" := Bool(true)])])]))
  }

  /** The child starts onboarded, and in a directory that is trusted. */
  lemma SeedOnboards(cwd: string)
    ensures var seed := OnboardingSeed(cwd).root;
            && Get(seed, "hasCompletedOnboarding") == Some(Bool(true)) && Get(seed, "theme") == Some(Str("dark"))
            && Get(seed, "hasTrustDialogAccepted") == Some(Bool(true))
            && Get(seed, "projects") == Some(Obj(map[cwd := Obj(map["hasTrustDialogAccepted" := Bool(true)])]))
  {
    var fields := OnboardingSeed(cwd).root.fields;
    assert |"hasCompletedOnboarding"| == 22 && |"theme"| == 5 && |"hasTrustDialogAccepted"| == 22 && |"projects"| == 8;
    assert "hasCompletedOnboarding"[3] == 'C' && "hasTrustDialogAccepted"[3] == 'T';
  }

  /** And with no identity. */
  lemma SeedHasNoIdentity(cwd: string)
    ensures Read(OnboardingSeed(cwd)) == Err(OauthAccountMissing)
  {
    var fields := OnboardingSeed(cwd).root.fields;
    assert fields.Keys == {"hasCompletedOnboarding", "theme", "hasTrustDialogAccepted", "projects"};
    assert |OAUTH_ACCOUNT| == 12 && |"hasCompletedOnboarding"| == 22 && |"theme"| == 5
        && |"hasTrustDialogAccepted"| == 22 && |"projects"| == 8;
  }

  /** A state file that says the login did not get as far as an identity. */
  predicate NoIdentityYet(json: Content) {
    Read(json).Err? && (Read(json).error.OauthAccountMissing? || Read(json).error.StateNotFound?
                        || Read(json).error.FieldMissing?)
  }

  /** The state file at the path below the directory. */
  function JsonIn(dir: Dir): Content {
    if dir.RealDir? then dir.json else Absent
  }

  // --- the script ---

  /** How the `i`th await ends: one that is not scripted succeeds. */
  predicate DroppedAt(turns: seq<Turn>, i: nat) {
    i < |turns| && turns[i].dropped
  }

  predicate SucceedsAt(turns: seq<Turn>, i: nat) {
    i >= |turns| || (!turns[i].dropped && turns[i].ok)
  }

  /** How the `i`th operation that does not await ends. */
  predicate AnswerAt(answers: seq<bool>, i: nat) {
    i >= |answers| || answers[i]
  }

  /** The shared item once `n` awaits are over. */
  function SharedAfter(shared: Option<Blob>, turns: seq<Turn>, n: nat): Option<Blob> {
    if n == 0 || turns == [] then shared
    else if n <= |turns| then turns[n - 1].shared else turns[|turns| - 1].shared
  }

  function Skip<T>(s: seq<T>, n: nat): seq<T> {
    if n <= |s| then s[n..] else []
  }

  /** What the child leaves behind, if it does anything. */
  function LeftItem(turns: seq<Turn>, item: Option<Blob>): Option<Blob> {
    if turns == [] then item else turns[0].item
  }

  function LeftJson(turns: seq<Turn>, json: Content): Content {
    if turns == [] then json else turns[0].json
  }

  /** The child ran to its end, and then the shared item was read and found as it was. */
  predicate RanClean(turns: seq<Turn>, shared: Option<Blob>, baseline: Option<Digest>) {
    && SucceedsAt(turns, 0) && SucceedsAt(turns, 1)
    && HashOf(SharedAfter(shared, turns, 2)) == baseline
  }

  /** A credential came out of the login. */
  predicate Yields(r: Outcome) {
    r.Some? && r.value.Ok? && r.value.value.Captured?
  }

  /** From the child on, with the shared item as it was when it was hashed: nothing is dropped
      and nothing fails, the shared item is the same after the child, and the child has left
      a credential and an identity. */
  predicate Harvests(turns: seq<Turn>, shared: Option<Blob>, item: Option<Blob>, seed: Content) {
    && RanClean(turns, shared, HashOf(shared)) && SucceedsAt(turns, 2)
    && LeftItem(turns, item).Some? && Read(LeftJson(turns, seed)).Ok?
  }

  /** What `run_login` comes to, step by step. */
  function LoginResult(seeded: bool, turns: seq<Turn>, shared: Option<Blob>, item: Option<Blob>, seed: Content,
                       baseline: Option<Digest>): Outcome {
    if !seeded then Some(Err(SeedFailed))
    else if DroppedAt(turns, 0) then None
    else if !SucceedsAt(turns, 0) then Some(Err(SpawnFailed))
    else
      Checked(Skip(turns, 1), SharedAfter(shared, turns, 1), LeftItem(turns, item), LeftJson(turns, seed), baseline)
  }

  /** From the second look at the shared item on. */
  function Checked(turns: seq<Turn>, shared: Option<Blob>, item: Option<Blob>, json: Content,
                   baseline: Option<Digest>): Outcome {
    if DroppedAt(turns, 0) then None
    else if !SucceedsAt(turns, 0) then Some(Err(SharedUnreadable))
    else if HashOf(SharedAfter(shared, turns, 1)) != baseline then Some(Err(SharedCredentialMutated))
    else Harvested(Skip(turns, 1), item, json)
  }

  function Harvested(turns: seq<Turn>, item: Option<Blob>, json: Content): Outcome {
    if DroppedAt(turns, 0) then None
    else if !SucceedsAt(turns, 0) then Some(Err(ItemUnreadable))
    else if item.None? || NoIdentityYet(json) then Some(Ok(Incomplete))
    else
      match Read(json)
      case Ok(identity) => Some(Ok(Captured(item.value, identity)))
      case Err(error) => Some(Err(StateUnreadable(error)))
  }

  /** When each result comes out. It harvests exactly when the seed is written, no await is
      dropped, every one succeeds, the shared item is as it was before the child, and the child
      has left a credential and a state file with an identity. */
  lemma LoginComesTo(seeded: bool, turns: seq<Turn>, shared: Option<Blob>, item: Option<Blob>, seed: Content,
                     baseline: Option<Digest>)
    ensures var r := LoginResult(seeded, turns, shared, item, seed, baseline);
            var json := LeftJson(turns, seed);
            && (r == None <==>
                  && seeded
                  && (|| DroppedAt(turns, 0)
                      || (SucceedsAt(turns, 0) && DroppedAt(turns, 1))
                      || (RanClean(turns, shared, baseline) && DroppedAt(turns, 2))))
            && (r == Some(Err(SeedFailed)) <==> !seeded)
            && (r == Some(Err(SpawnFailed)) <==> seeded && !DroppedAt(turns, 0) && !SucceedsAt(turns, 0))
            && (r == Some(Err(SharedCredentialMutated)) <==>
                  && seeded && SucceedsAt(turns, 0) && SucceedsAt(turns, 1)
                  && HashOf(SharedAfter(shared, turns, 2)) != baseline)
            && (r.Some? && r.value.Ok? <==>
                  && seeded && RanClean(turns, shared, baseline) && SucceedsAt(turns, 2)
                  && (LeftItem(turns, item).None? || Read(json).Ok? || NoIdentityYet(json)))
            && (Yields(r) <==>
                  && seeded && RanClean(turns, shared, baseline) && SucceedsAt(turns, 2)
                  && LeftItem(turns, item).Some? && Read(json).Ok?)
  {
  }

  /** The script goes on where it was left. */
  lemma GoesOn(turns: seq<Turn>, n: nat)
    ensures DroppedAt(Skip(turns, n), 0) == DroppedAt(turns, n)
    ensures SucceedsAt(Skip(turns, n), 0) == SucceedsAt(turns, n)
    ensures Skip(Skip(turns, n), 1) == Skip(turns, n + 1)
  {
  }

  /** The deletes of a teardown are not dropped, with so many left to try. */
  predicate Finishes(turns: seq<Turn>, tries: nat)
    decreases tries
  {
    || tries == 0
    || SucceedsAt(turns, 0)
    || (!DroppedAt(turns, 0) && !DroppedAt(turns, 1) && Finishes(Skip(turns, 2), tries - 1))
  }

  predicate DeleteFailsAt(turns: seq<Turn>, i: nat) {
    !DroppedAt(turns, 2 * i) && !SucceedsAt(turns, 2 * i) && !DroppedAt(turns, 2 * i + 1)
  }

  /** So many deletes fail and are slept on, and then one succeeds or there are none left. */
  ghost predicate EndsAfter(turns: seq<Turn>, tries: nat, k: nat) {
    && k <= tries
    && (forall i :: 0 <= i < k ==> DeleteFailsAt(turns, i))
    && (k == tries || SucceedsAt(turns, 2 * k))
  }

  lemma FailsLater(turns: seq<Turn>, i: nat)
    ensures DeleteFailsAt(Skip(turns, 2), i) == DeleteFailsAt(turns, i + 1)
    ensures SucceedsAt(Skip(turns, 2), 2 * i) == SucceedsAt(turns, 2 * (i + 1))
  {
  }

  lemma EndsOneLater(turns: seq<Turn>, tries: nat, k: nat)
    requires tries > 0 && DeleteFailsAt(turns, 0)
    ensures EndsAfter(Skip(turns, 2), tries - 1, k) <==> EndsAfter(turns, tries, k + 1)
  {
    FailsLater(turns, k);
    if EndsAfter(Skip(turns, 2), tries - 1, k) {
      forall i | 0 <= i < k + 1 ensures DeleteFailsAt(turns, i) {
        if i > 0 { FailsLater(turns, i - 1); }
      }
    }
    if EndsAfter(turns, tries, k + 1) {
      forall i | 0 <= i < k ensures DeleteFailsAt(Skip(turns, 2), i) {
        FailsLater(turns, i);
      }
    }
  }

  /** The deletes are not dropped exactly when each fails and is slept on until one succeeds,
      or as many have been tried as there are. */
  lemma {:induction false} FinishesExactlyWhen(turns: seq<Turn>, tries: nat)
    ensures Finishes(turns, tries) <==> exists k: nat :: EndsAfter(turns, tries, k)
    decreases tries
  {
    if tries == 0 || SucceedsAt(turns, 0) {
      assert EndsAfter(turns, tries, 0);
    } else {
      FinishesExactlyWhen(Skip(turns, 2), tries - 1);
      if Finishes(turns, tries) {
        var k: nat :| EndsAfter(Skip(turns, 2), tries - 1, k);
        EndsOneLater(turns, tries, k);
      }
      if k: nat :| EndsAfter(turns, tries, k) {
        assert DeleteFailsAt(turns, 0);
        EndsOneLater(turns, tries, k - 1);
      }
    }
  }

  class Sandbox {
    var shared: Option<Blob>           // the shared credential item
    var item: Option<Blob>             // the isolated one
    var dir: Dir                       // the isolated directory
    var turns: seq<Turn>
    var answers: seq<bool>             // how the operations that do not await end
    ghost var log: Log

    constructor (shared: Option<Blob>, item: Option<Blob>, dir: Dir, turns: seq<Turn>, answers: seq<bool>)
      ensures this.shared == shared && this.item == item && this.dir == dir
      ensures this.turns == turns && this.answers == answers
    {
      this.shared, this.item, this.dir, this.turns, this.answers := shared, item, dir, turns, answers;
    }

    /** Anything may happen to the shared item during an await. A script that has run out
        leaves the world alone and lets everything succeed. */
    method Await() returns (turn: Turn)
      modifies this`shared, this`turns
      ensures shared == turn.shared == SharedAfter(old(shared), old(turns), 1) && turns == Skip(old(turns), 1)
      ensures turn.dropped == DroppedAt(old(turns), 0)
      ensures !turn.dropped ==> turn.ok == SucceedsAt(old(turns), 0)
      ensures old(turns) != [] ==> turn == old(turns)[0]
    {
      if turns == [] { return Turn(false, true, shared, None, Absent); }
      turn, turns := turns[0], turns[1..];
      shared := turn.shared;
    }

    method Answer() returns (ok: bool)
      modifies this`answers
      ensures ok == AnswerAt(old(answers), 0) && answers == Skip(old(answers), 1)
    {
      if answers == [] { return true; }
      ok, answers := answers[0], answers[1..];
    }

    // --- teardown ---

    /** One delete of the isolated item. A future dropped in it may have deleted it or not. */
    method Delete() returns (turn: Turn)
      modifies this`shared, this`turns, this`item, this`log
      ensures turns == Skip(old(turns), 1) && turn.dropped == DroppedAt(old(turns), 0)
      ensures !turn.dropped ==> turn.ok == SucceedsAt(old(turns), 0)
      ensures item == if turn.ok then None else old(item)
      ensures log == old(log).(deletes := old(log).deletes + 1, deleted := old(log).deleted || turn.ok)
    {
      turn := Await();
      if turn.ok { item := None; }
      log := log.(deletes := log.deletes + 1, deleted := log.deleted || turn.ok);
    }

    method DeleteBlocking()
      modifies this`answers, this`item, this`log
      ensures answers == Skip(old(answers), 1)
      ensures var ok := AnswerAt(old(answers), 0);
              && item == (if ok then None else old(item))
              && log == old(log).(deletes := old(log).deletes + 1, deleted := old(log).deleted || ok)
    {
      var ok := Answer();
      if ok { item := None; }
      log := log.(deletes := log.deletes + 1, deleted := log.deleted || ok);
    }

    /** `remove_dir_all`. One that fails may have removed the state file and not the
        directory. */
    method RemoveDir()
      modifies this`answers, this`dir, this`log
      ensures var ok := AnswerAt(old(answers), 0);
              && log == old(log).(removed := old(log).removed || ok)
              && dir == if ok then NoDir
                        else if AnswerAt(old(answers), 1) && old(dir).RealDir? then RealDir(Absent) else old(dir)
      ensures old(answers) == [] ==> answers == []
    {
      var ok := Answer();
      if ok {
        dir := NoDir;
      } else {
        var emptied := Answer();
        if emptied && dir.RealDir? { dir := RealDir(Absent); }
      }
      log := log.(removed := log.removed || ok);
    }

    /** The directory as it was, or emptied. */
    predicate Leftover(before: Dir)
      reads this
    {
      dir == before || (before.RealDir? && dir == RealDir(Absent))
    }

    /** A session in which nothing has been deleted yet, with what is there now. */
    ghost predicate Standing()
      reads this
    {
      log.armed && log.deletes == 0 && !log.deleted && !log.removed && log.found == item && log.foundDir == dir
    }

    /** The item is gone exactly when it was not there or one delete succeeded. The directory
        is gone when its removal succeeded, and otherwise left as it was or emptied. */
    ghost predicate TornDown()
      reads this
    {
      && log.armed && 1 <= log.deletes
      && item == (if log.deleted then None else log.found)
      && (if log.removed then dir == NoDir else Leftover(log.foundDir))
    }

    /** `IsolatedSession::drop` of an armed session. */
    method DropSession()
      requires log.armed && !log.removed && log.foundDir == dir
      requires item == if log.deleted then None else log.found
      modifies this`answers, this`item, this`dir, this`log
      ensures TornDown()
      ensures log == old(log).(deletes := old(log).deletes + 1, deleted := log.deleted, removed := log.removed)
      ensures log.deleted <==> old(log).deleted || AnswerAt(old(answers), 0)
      ensures log.removed <==> AnswerAt(old(answers), 1)
    {
      DeleteBlocking();
      RemoveDir();
    }

    /** `IsolatedSession::teardown`: three deletes with a pause after each that fails, then the
        blocking one, then the directory. When the future is dropped on the way the guard is
        still armed, and runs. An item that survives an undisturbed teardown has survived
        four deletes. */
    method Teardown() returns (finished: bool)
      requires Standing()
      modifies this
      ensures TornDown()
      ensures log == old(log).(deletes := log.deletes, deleted := log.deleted, removed := log.removed)
      ensures finished && item.Some? ==> log.deletes == TEARDOWN_DELETE_RETRIES + 1
      ensures finished <==> Finishes(old(turns), 3)
      ensures old(answers) == [] ==> item == None && dir == NoDir
    {
      var deleted;
      finished, deleted := TryDeletes();
      if !finished { DropSession(); return; }
      if !deleted { DeleteBlocking(); }
      RemoveDir();
    }

    /** The deletes that await. */
    method TryDeletes() returns (finished: bool, deleted: bool)
      requires Standing()
      modifies this`shared, this`turns, this`item, this`log
      ensures log == old(log).(deletes := log.deletes, deleted := log.deleted) && 1 <= log.deletes
      ensures item == if log.deleted then None else log.found
      ensures finished ==> deleted == log.deleted && (!deleted ==> log.deletes == TEARDOWN_DELETE_RETRIES)
      ensures finished <==> Finishes(old(turns), 3)
    {
      deleted := false;
      var i := 0;
      while i < TEARDOWN_DELETE_RETRIES && !deleted
        invariant 0 <= i <= TEARDOWN_DELETE_RETRIES
        invariant log == old(log).(deletes := i, deleted := deleted)
        invariant deleted ==> 1 <= i
        invariant item == if deleted then None else log.found
        invariant if deleted then Finishes(old(turns), 3) else Finishes(old(turns), 3) == Finishes(turns, 3 - i)
      {
        label Before:
        GoesOn(turns, 1);
        var turn := Delete();
        if turn.dropped { return false, deleted; }
        if turn.ok {
          deleted := true;
        } else {
          var pause := Await();
          if pause.dropped { return false, deleted; }
          assert turns == Skip(old@Before(turns), 2);
        }
        i := i + 1;
      }
      return true, deleted;
    }

    // --- the login ---

    /** `shared_item_hash`; `None` when the future is dropped. */
    method SharedItemHash() returns (r: Option<Result<Option<Digest>, LoginError>>)
      modifies this`shared, this`turns
      ensures shared == SharedAfter(old(shared), old(turns), 1) && turns == Skip(old(turns), 1)
      ensures r == if DroppedAt(old(turns), 0) then None
                   else if SucceedsAt(old(turns), 0) then Some(Ok(HashOf(shared))) else Some(Err(SharedUnreadable))
    {
      var turn := Await();
      if turn.dropped { return None; }
      if !turn.ok { return Some(Err(SharedUnreadable)); }
      return Some(Ok(HashOf(shared)));
    }

    /** `create_isolated_dir`: a stale directory is replaced, a link is refused and left alone.
        After the directory is made it is looked at again: it may have been replaced by
        `planted`, which is refused when it is no directory, or when somebody else owns it. */
    method CreateIsolatedDir(planted: Option<Dir>, owned: bool) returns (r: Result<(), LoginError>)
      modifies this`dir, this`answers
      ensures r.Ok? ==> dir.RealDir? && owned && !old(dir).SymLink? && (planted.None? ==> dir == RealDir(Absent))
      ensures old(dir).SymLink? ==> dir == old(dir) && (r == Err(UnsafeDir) || r == Err(DirFailed))
      ensures r == Err(UnsafeDir) <==>
                || (AnswerAt(old(answers), 0) && old(dir).SymLink?)
                || (CanMake(old(dir), old(answers)) && (planted == Some(SymLink) || planted == Some(OtherFile)))
      ensures r == Err(ForeignOwnership) <==>
                && CanMake(old(dir), old(answers)) && !owned
                && (planted.None? || planted.value.RealDir?)
      ensures r.Ok? <==>
                && CanMake(old(dir), old(answers)) && owned
                && (planted.None? || planted.value.RealDir?)
      ensures r.Ok? ==> answers == Skip(old(answers), if old(dir).NoDir? then 3 else 4)
      ensures (old(dir).OtherFile? || old(dir).RealDir?)
              && AnswerAt(old(answers), 0) && AnswerAt(old(answers), 1) && !AnswerAt(old(answers), 2) ==>
                dir == NoDir
      ensures r.Err? ==> r.error in {UnsafeDir, ForeignOwnership, DirFailed}
      ensures r.Err? ==> dir == old(dir) || dir == NoDir || dir == RealDir(Absent) || Some(dir) == planted
    {
      var parent := Answer();
      if !parent { return Err(DirFailed); }
      if dir.SymLink? { return Err(UnsafeDir); }
      if !dir.NoDir? {
        var cleared := Answer();
        if !cleared { return Err(DirFailed); }
        dir := NoDir;
      }
      var made := Answer();
      if !made { return Err(DirFailed); }
      dir := RealDir(Absent);
      var secured := Answer();
      if !secured { return Err(DirFailed); }
      if planted.Some? { dir := planted.value; }
      if dir.NoDir? { return Err(DirFailed); }
      if !dir.RealDir? { return Err(UnsafeDir); }
      if !owned { return Err(ForeignOwnership); }
      return Ok(());
    }

    /** The directory can be made: its parent is there, nothing stands in its place that stays
        there, and it can be made private. */
    static predicate CanMake(dir: Dir, answers: seq<bool>) {
      && !dir.SymLink? && AnswerAt(answers, 0) && AnswerAt(answers, 1) && AnswerAt(answers, 2)
      && (dir.NoDir? || AnswerAt(answers, 3))
    }

    /** What each result of `run_login` says about the two hashes, the isolated item and the
        isolated state file. */
    ghost predicate Justified(r: Outcome)
      reads this
    {
      match r
      case None => true
      case Some(Ok(Captured(credential, identity))) =>
        && log.rechecked && log.after == log.before
        && item == Some(credential) && Read(JsonIn(dir)) == Ok(identity)
      case Some(Ok(Incomplete)) =>
        && log.rechecked && log.after == log.before
        && (item == None || NoIdentityYet(JsonIn(dir)))
      case Some(Err(error)) =>
        && (error == SharedCredentialMutated <==> log.rechecked && log.after != log.before)
        && (error.StateUnreadable? ==> item.Some? && Read(JsonIn(dir)) == Err(error.error)
                                       && !NoIdentityYet(JsonIn(dir)))
        && error !in {RequiresTty, UnsafeDir, ForeignOwnership, DirFailed}
    }

    /** `login.run`: what the child leaves, whatever it does. */
    method RunChild() returns (turn: Turn)
      modifies this`shared, this`turns, this`item, this`dir, this`log
      requires dir.RealDir?
      ensures log == old(log).(found := item, foundDir := dir)
      ensures item == LeftItem(old(turns), old(item)) && dir == RealDir(LeftJson(old(turns), old(dir).json))
      ensures shared == SharedAfter(old(shared), old(turns), 1) && turns == Skip(old(turns), 1)
      ensures turn.dropped == DroppedAt(old(turns), 0)
      ensures !turn.dropped ==> turn.ok == SucceedsAt(old(turns), 0)
    {
      var leavesThings := turns != [];
      turn := Await();
      if leavesThings {
        item, dir := turn.item, RealDir(turn.json);
      }
      log := log.(found := item, foundDir := dir);
    }

    /** `run_login`. */
    method RunLogin(seed: Content, baseline: Option<Digest>) returns (r: Outcome)
      requires Standing() && dir.RealDir? && HashOf(log.before) == baseline && !log.rechecked
      modifies this
      ensures Standing() && HashOf(log.before) == baseline
      ensures Justified(r)
      ensures r == LoginResult(AnswerAt(old(answers), 0), old(turns), old(shared), old(item), seed, baseline)
      ensures old(answers) == [] ==> answers == []
      ensures item == (if AnswerAt(old(answers), 0) then LeftItem(old(turns), old(item)) else old(item))
      ensures r.Some? && r.value.Ok? ==> turns == Skip(old(turns), 3)
    {
      var seeded := Answer();
      if !seeded { return Some(Err(SeedFailed)); }
      dir := RealDir(seed);
      var turn := RunChild();
      if turn.dropped { return None; }
      if !turn.ok { return Some(Err(SpawnFailed)); }
      r := CheckAndHarvest(baseline);
    }

    /** The second look at the shared item, and what is read back. */
    method CheckAndHarvest(baseline: Option<Digest>) returns (r: Outcome)
      requires Standing() && dir.RealDir? && HashOf(log.before) == baseline && !log.rechecked
      modifies this`shared, this`turns, this`log
      ensures Standing() && HashOf(log.before) == baseline
      ensures Justified(r)
      ensures r == Checked(old(turns), old(shared), item, dir.json, baseline)
      ensures r.Some? && r.value.Ok? ==> turns == Skip(old(turns), 2)
    {
      var recheck := SharedItemHash();
      if recheck.None? { return None; }
      if recheck.value.Err? { return Some(Err(recheck.value.error)); }
      log := log.(rechecked := true, after := shared);
      if recheck.value.value != baseline { return Some(Err(SharedCredentialMutated)); }
      r := Harvest();
    }

    /** The two read-backs. */
    method Harvest() returns (r: Outcome)
      modifies this`shared, this`turns
      ensures turns == Skip(old(turns), 1)
      ensures r == Harvested(old(turns), item, JsonIn(dir))
    {
      var turn := Await();
      if turn.dropped { return None; }
      if !turn.ok { return Some(Err(ItemUnreadable)); }
      if item.None? { return Some(Ok(Incomplete)); }
      match Read(JsonIn(dir)) {
        case Ok(identity) => return Some(Ok(Captured(item.value, identity)));
        case Err(OauthAccountMissing) => return Some(Ok(Incomplete));
        case Err(StateNotFound) => return Some(Ok(Incomplete));
        case Err(FieldMissing(_)) => return Some(Ok(Incomplete));
        case Err(error) => return Some(Err(StateUnreadable(error)));
      }
    }

    /** `login_capture`. */
    method Capture(isTty: bool, cwd: string, planted: Option<Dir>, owned: bool) returns (r: Outcome)
      modifies this
      ensures !isTty ==>
                && r == Some(Err(RequiresTty)) && !log.armed
                && shared == old(shared) && item == old(item) && dir == old(dir)
      ensures !log.armed ==>
                && item == old(item) && (r.None? || r.value.Err?)
                && (dir == old(dir) || dir == NoDir || dir == RealDir(Absent) || Some(dir) == planted)
      ensures log.armed ==> TornDown()
      ensures log.armed && r.Some? && item.Some? ==> log.deletes == TEARDOWN_DELETE_RETRIES + 1
      ensures log.armed && old(answers) == [] ==> item == None && dir == NoDir
      ensures log.armed <==>
                && isTty && SucceedsAt(old(turns), 0) && CanMake(old(dir), old(answers)) && owned
                && (planted.None? || planted.value.RealDir?)
      ensures Yields(r) <==>
                && log.armed && AnswerAt(old(answers), if old(dir).NoDir? then 3 else 4)
                && Harvests(Skip(old(turns), 1), SharedAfter(old(shared), old(turns), 1), old(item),
                            OnboardingSeed(cwd))
                && Finishes(Skip(old(turns), 4), 3)
      ensures r.Some? && r.value.Ok? && r.value.value.Captured? ==>
                && log.armed && log.rechecked && log.after == log.before
                && log.found == Some(r.value.value.credential)
                && Read(JsonIn(log.foundDir)) == Ok(r.value.value.identity)
                && JsonIn(log.foundDir) != OnboardingSeed(cwd)
      ensures r.Some? && r.value.Ok? && r.value.value.Incomplete? ==>
                && log.armed && log.rechecked && log.after == log.before
                && (log.found == None || NoIdentityYet(JsonIn(log.foundDir)))
      ensures r.Some? && log.armed ==>
                (r == Some(Err(SharedCredentialMutated)) <==> log.rechecked && log.after != log.before)
      ensures isTty && !SucceedsAt(old(turns), 0) ==>
                r == if DroppedAt(old(turns), 0) then None else Some(Err(SharedUnreadable))
      ensures isTty && SucceedsAt(old(turns), 0) && !log.armed ==>
                r.Some? && r.value.Err? && r.value.error in {UnsafeDir, ForeignOwnership, DirFailed}
      ensures log.armed && r.Some? ==>
                var before := SharedAfter(old(shared), old(turns), 1);
                r == LoginResult(AnswerAt(old(answers), if old(dir).NoDir? then 3 else 4), Skip(old(turns), 1), before,
                                 old(item), OnboardingSeed(cwd), HashOf(before))
    {
      log := Log(false, None, false, None, None, NoDir, 0, false, false);
      if !isTty { return Some(Err(RequiresTty)); }
      var baseline := SharedItemHash();
      if baseline.None? { return None; }
      if baseline.value.Err? { return Some(Err(baseline.value.error)); }
      log := log.(before := shared);
      var created := CreateIsolatedDir(planted, owned);
      if created.Err? { return Some(Err(created.error)); }
      log := log.(armed := true, found := item, foundDir := dir);
      r := RunLogin(OnboardingSeed(cwd), baseline.value.value);
      SeedHasNoIdentity(cwd);
      LoginComesTo(AnswerAt(old(answers), if old(dir).NoDir? then 3 else 4), Skip(old(turns), 1),
                   SharedAfter(old(shared), old(turns), 1), old(item), OnboardingSeed(cwd), baseline.value.value);
      if r.None? {
        DropSession();
        return;
      }
      var finished := Teardown();
      if !finished { r := None; }
    }
  }
}
