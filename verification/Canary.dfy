/** The active-account resolvers of src/active.rs and the canary of src/canary.rs: heal the
    display against the canonical token, then classify what is left.

    A stash is a partial map from stash name to what can be read there: an entry that is
    absent, locked or corrupt is simply not in it, and a read gives the same answer for the
    whole of one pass. */
module Canary {
  import opened Wrappers
  import opened ClaudeState
  import opened Roster

  type Token = string

  datatype Stashed = Stashed(credential: Token, identity: Identity)

  type Stash = map<string, Stashed>

  datatype ProbeAnswer = Resolved | ProbeNotFound | ProbeAmbiguous(count: nat) | ProbeFailed
  datatype ReadAnswer = Canonical(token: Token) | ReadNotFound | ReadFailed

  datatype Outcome =
    | Confirmed
    | NotFound
    | Ambiguous(count: nat)
    | Drift(displayed: nat, matched: nat)
    | DisplayUnresolved
    | NoStashMatch(wellFormed: bool)

  // --- the two signals ---

  /** Whether the stash of this row can be read and holds the token. */
  predicate Matches(roster: seq<Account>, stash: Stash, canonical: Token, i: nat) {
    i < |roster| && StashName(roster[i].uuid) in stash && stash[StashName(roster[i].uuid)].credential == canonical
  }

  /** The first row at or after `from` whose stash holds the token, or the length. */
  function FirstMatch(roster: seq<Account>, stash: Stash, canonical: Token, from: nat): (at: nat)
    requires from <= |roster|
    ensures from <= at <= |roster|
    ensures forall i :: from <= i < at ==> !Matches(roster, stash, canonical, i)
    ensures at < |roster| ==> Matches(roster, stash, canonical, at)
    decreases |roster| - from
  {
    if from == |roster| || Matches(roster, stash, canonical, from) then from
    else FirstMatch(roster, stash, canonical, from + 1)
  }

  /** `resolve_via_display`. */
  function ResolveViaDisplay(roster: seq<Account>, content: Content): Option<nat> {
    match Read(content)
    case Err(_) => None
    case Ok(oauth) =>
      var at := IndexOf(roster, oauth.accountUuid);
      if at < |roster| then Some(at) else None
  }

  /** What `resolve_account_for` answers. */
  function AccountFor(roster: seq<Account>, stash: Stash, content: Content, canonical: Token): Option<nat> {
    var at := FirstMatch(roster, stash, canonical, 0);
    if at < |roster| then Some(at) else ResolveViaDisplay(roster, content)
  }

  /** `resolve_account_for`. The token decides whenever any readable stash holds it, whatever
      is displayed: the first such row. The display is asked only when none does. */
  method ResolveAccountFor(roster: seq<Account>, stash: Stash, content: Content, canonical: Token)
    returns (r: Option<nat>)
    ensures r == AccountFor(roster, stash, content, canonical)
    ensures forall i: nat :: FirstHolder(roster, stash, canonical, i) ==> r == Some(i)
    ensures NobodyHolds(roster, stash, canonical) ==> r == ResolveViaDisplay(roster, content)
  {
    MatchingIsHolding(roster, stash, canonical);
    forall i: nat | FirstHolder(roster, stash, canonical, i)
      ensures AccountFor(roster, stash, content, canonical) == Some(i) {
      TokenOutranksDisplay(roster, stash, content, canonical, i);
    }
    for i := 0 to |roster|
      invariant FirstMatch(roster, stash, canonical, 0) == FirstMatch(roster, stash, canonical, i)
    {
      var name := StashName(roster[i].uuid);
      if name in stash {
        if stash[name].credential == canonical {
          return Some(i);
        }
      }
    }
    return ResolveViaDisplay(roster, content);
  }

  /** The first row whose own stash, named after its uuid, can be read and holds the token. */
  ghost predicate FirstHolder(roster: seq<Account>, stash: Stash, canonical: Token, i: nat) {
    && i < |roster|
    && Holds(stash, roster[i].uuid, canonical)
    && forall j :: 0 <= j < i ==> !Holds(stash, roster[j].uuid, canonical)
  }

  ghost predicate NobodyHolds(roster: seq<Account>, stash: Stash, canonical: Token) {
    forall j :: 0 <= j < |roster| ==> !Holds(stash, roster[j].uuid, canonical)
  }

  ghost predicate Holds(stash: Stash, uuid: string, canonical: Token) {
    exists name :: name in stash && name == "Sessiometer/" + uuid && stash[name].credential == canonical
  }

  /** The state file displays this account: it parses, and its `oauthAccount` is an object
      whose `accountUuid` is this string, which is not blank. */
  ghost predicate Shows(content: Content, uuid: string) {
    exists fields: map<string, Json> ::
      && content.Doc? && content.root.Obj?
      && "oauthAccount" in content.root.fields && content.root.fields["oauthAccount"] == Obj(fields)
      && "accountUuid" in fields && fields["accountUuid"] == Str(uuid) && !Blank(uuid)
  }

  /** The display alone: the first row of the account shown, and no row when the file is
      absent, unreadable, malformed or without an identity, or shows nobody rostered. */
  lemma DisplayResolvesExactlyWhen(roster: seq<Account>, content: Content, i: nat)
    ensures ResolveViaDisplay(roster, content) == Some(i) <==>
            && i < |roster| && Shows(content, roster[i].uuid)
            && forall j :: 0 <= j < i ==> roster[j].uuid != roster[i].uuid
  {
    if content.Doc? && content.root.Obj? && OAUTH_ACCOUNT in content.root.fields {
      var value := content.root.fields[OAUTH_ACCOUNT];
      assert value.Obj? ==> value == Obj(value.fields);
    }
  }

  /** The two signals in order of trust, for every roster, stash, state file and token: the
      first row holding the token, else the row on display, else none. */
  lemma TokenOutranksDisplay(roster: seq<Account>, stash: Stash, content: Content, canonical: Token, i: nat)
    ensures AccountFor(roster, stash, content, canonical) == Some(i) <==>
              || FirstHolder(roster, stash, canonical, i)
              || (NobodyHolds(roster, stash, canonical) && ResolveViaDisplay(roster, content) == Some(i))
  {
    MatchingIsHolding(roster, stash, canonical);
  }

  lemma MatchingIsHolding(roster: seq<Account>, stash: Stash, canonical: Token)
    ensures forall j :: 0 <= j < |roster| ==>
              (Matches(roster, stash, canonical, j) <==> Holds(stash, roster[j].uuid, canonical))
  {
  }

  // --- the heal ---

  ghost function MatchedIdentity(roster: seq<Account>, stash: Stash, canonical: Token): Identity
    requires FirstMatch(roster, stash, canonical, 0) < |roster|
  {
    stash[StashName(roster[FirstMatch(roster, stash, canonical, 0)].uuid)].identity
  }

  /** A write is due: some stash matches, and the display names another account than it does. */
  ghost predicate HealDue(roster: seq<Account>, stash: Stash, canonical: Token, content: Content) {
    && FirstMatch(roster, stash, canonical, 0) < |roster|
    && Displayed(content) != Some(MatchedIdentity(roster, stash, canonical).accountUuid)
  }

  ghost predicate HealFails(roster: seq<Account>, stash: Stash, canonical: Token, content: Content, landed: bool) {
    HealDue(roster, stash, canonical, content) && !Writable(content, landed)
  }

  ghost function Healed(roster: seq<Account>, stash: Stash, canonical: Token, content: Content, landed: bool): Content {
    if HealDue(roster, stash, canonical, content)
    then Written(content, MatchedIdentity(roster, stash, canonical), landed)
    else content
  }

  /** `reconcile_display`. */
  method ReconcileDisplay(roster: seq<Account>, stash: Stash, file: StateFile, canonical: Token, landed: bool)
    returns (r: Result<(), StateError>)
    modifies file
    ensures file.content == Healed(roster, stash, canonical, old(file.content), landed)
    ensures r.Err? <==> HealFails(roster, stash, canonical, old(file.content), landed)
  {
    for i := 0 to |roster|
      invariant file.content == old(file.content)
      invariant FirstMatch(roster, stash, canonical, 0) == FirstMatch(roster, stash, canonical, i)
    {
      var name := StashName(roster[i].uuid);
      if name !in stash { continue; }
      var stashed := stash[name];
      if stashed.credential != canonical { continue; }
      if Displayed(file.content) != Some(stashed.identity.accountUuid) {
        r := file.WriteOauthAccount(stashed.identity, landed);
        return;
      }
      return Ok(());
    }
    return Ok(());
  }

  // --- the verdict ---

  /** What each verdict says about the display and the stashes. */
  ghost predicate Justified(roster: seq<Account>, stash: Stash, canonical: Token, content: Content,
                            wellFormed: Token -> bool, v: Outcome) {
    var shown := ResolveViaDisplay(roster, content);
    match v
    case Confirmed => shown.Some? && Matches(roster, stash, canonical, shown.value)
    case Drift(displayed, matched) =>
      && shown == Some(displayed)
      && Matches(roster, stash, canonical, matched)
      && forall i :: 0 <= i < matched || i == displayed ==> !Matches(roster, stash, canonical, i)
    case DisplayUnresolved => shown == None
    case NoStashMatch(parses) =>
      && shown.Some?
      && (forall i :: 0 <= i < |roster| ==> !Matches(roster, stash, canonical, i))
      && parses == wellFormed(canonical)
    case NotFound => false
    case Ambiguous(_) => false
  }

  /** At most one verdict is ever justified, so `Justified` determines it. */
  lemma OneVerdict(roster: seq<Account>, stash: Stash, canonical: Token, content: Content,
                   wellFormed: Token -> bool, v: Outcome, w: Outcome)
    requires Justified(roster, stash, canonical, content, wellFormed, v)
    requires Justified(roster, stash, canonical, content, wellFormed, w)
    ensures v == w
  {
    if v.Drift? && w.Drift? {
      assert !(v.matched < w.matched) && !(w.matched < v.matched);
    }
  }

  /** `run`. The two keychain answers, the success of a display write and the shape test of
      an unmatched token come from outside. */
  method Run(probe: ProbeAnswer, read: ReadAnswer, stash: Stash, roster: seq<Account>, file: StateFile,
             landed: bool, wellFormed: Token -> bool)
    returns (r: Option<Outcome>)
    modifies file
    ensures probe != Resolved ==> file.content == old(file.content)
    ensures probe == ProbeNotFound ==> r == Some(NotFound)
    ensures probe.ProbeAmbiguous? ==> r == Some(Ambiguous(probe.count))
    ensures probe == ProbeFailed ==> r == None
    ensures probe == Resolved && !read.Canonical? ==>
              file.content == old(file.content) && r == if read.ReadNotFound? then Some(NotFound) else None
    ensures probe == Resolved && read.Canonical? ==>
              && file.content == Healed(roster, stash, read.token, old(file.content), landed)
              && r.Some?
              && Justified(roster, stash, read.token, file.content, wellFormed, r.value)
  {
    match probe {
      case ProbeNotFound => return Some(NotFound);
      case ProbeAmbiguous(count) => return Some(Ambiguous(count));
      case ProbeFailed => return None;
      case Resolved =>
    }
    match read {
      case ReadNotFound => return Some(NotFound);
      case ReadFailed => return None;
      case Canonical(canonical) =>
        var _ := ReconcileDisplay(roster, stash, file, canonical, landed);
        var verdict := CrossCheck(roster, stash, canonical, file.content, wellFormed);
        return Some(verdict);
    }
  }

  /** Layer 2 of `run`: the displayed account's own stash first, then every other row. */
  method CrossCheck(roster: seq<Account>, stash: Stash, canonical: Token, content: Content, wellFormed: Token -> bool)
    returns (v: Outcome)
    ensures Justified(roster, stash, canonical, content, wellFormed, v)
  {
    var shown := ResolveViaDisplay(roster, content);
    if shown.None? {
      return DisplayUnresolved;
    }
    var displayed := shown.value;
    if Matches(roster, stash, canonical, displayed) {
      return Confirmed;
    }
    for matched := 0 to |roster|
      invariant forall i :: 0 <= i < matched ==> !Matches(roster, stash, canonical, i)
    {
      if matched == displayed { continue; }
      if Matches(roster, stash, canonical, matched) {
        return Drift(displayed, matched);
      }
    }
    return NoStashMatch(wellFormed(canonical));
  }

  // --- what the heal buys ---

  /** Roster uuids are unique, and every readable stash holds the identity of its own row. */
  ghost predicate Consistent(roster: seq<Account>, stash: Stash) {
    && UniqueUuids(roster)
    && forall i :: 0 <= i < |roster| && StashName(roster[i].uuid) in stash ==>
         stash[StashName(roster[i].uuid)].identity.accountUuid == roster[i].uuid
  }

  lemma FirstRowOfUniqueUuid(roster: seq<Account>, i: nat)
    requires UniqueUuids(roster) && i < |roster|
    ensures IndexOf(roster, roster[i].uuid) == i
  {
    var at := IndexOf(roster, roster[i].uuid);
    assert !(at < i);
  }

  /** A heal that does not fail leaves the display naming the first matching row. */
  lemma HealedDisplay(roster: seq<Account>, stash: Stash, canonical: Token, content: Content, landed: bool)
    requires Consistent(roster, stash)
    requires !HealFails(roster, stash, canonical, content, landed)
    requires FirstMatch(roster, stash, canonical, 0) < |roster|
    ensures ResolveViaDisplay(roster, Healed(roster, stash, canonical, content, landed))
         == Some(FirstMatch(roster, stash, canonical, 0))
  {
    var m := FirstMatch(roster, stash, canonical, 0);
    FirstRowOfUniqueUuid(roster, m);
    if HealDue(roster, stash, canonical, content) {
      ReadAfterWrite(content, MatchedIdentity(roster, stash, canonical));
    }
  }

  /** No false drift: the verdict after the heal is `Drift` exactly when some stash matches,
      the write that would have shown its account was due and failed, and the display names
      a rostered account whose own stash does not match. */
  lemma DriftExactlyWhen(roster: seq<Account>, stash: Stash, canonical: Token, content: Content, landed: bool,
                         wellFormed: Token -> bool, v: Outcome)
    requires Consistent(roster, stash)
    requires Justified(roster, stash, canonical, Healed(roster, stash, canonical, content, landed), wellFormed, v)
    ensures v.Drift? <==>
            && HealFails(roster, stash, canonical, content, landed)
            && ResolveViaDisplay(roster, content).Some?
            && !Matches(roster, stash, canonical, ResolveViaDisplay(roster, content).value)
  {
    var m := FirstMatch(roster, stash, canonical, 0);
    assert v.Drift? ==> Matches(roster, stash, canonical, v.matched) && m < |roster|;
    if HealFails(roster, stash, canonical, content, landed) {
      assert Matches(roster, stash, canonical, m);
    } else if m < |roster| {
      HealedDisplay(roster, stash, canonical, content, landed);
    }
  }

  /** When the heal lands, a second pass finds nothing to write and gives the same verdict. */
  lemma SecondRunIsIdle(roster: seq<Account>, stash: Stash, canonical: Token, content: Content, landed: bool,
                        again: bool, wellFormed: Token -> bool, v: Outcome, w: Outcome)
    requires !HealFails(roster, stash, canonical, content, landed)
    requires var healed := Healed(roster, stash, canonical, content, landed);
             && Justified(roster, stash, canonical, healed, wellFormed, v)
             && Justified(roster, stash, canonical, Healed(roster, stash, canonical, healed, again), wellFormed, w)
    ensures var healed := Healed(roster, stash, canonical, content, landed);
            && !HealDue(roster, stash, canonical, healed)
            && Healed(roster, stash, canonical, healed, again) == healed
            && w == v
  {
    var healed := Healed(roster, stash, canonical, content, landed);
    if HealDue(roster, stash, canonical, content) {
      ReadAfterWrite(content, MatchedIdentity(roster, stash, canonical));
    }
    OneVerdict(roster, stash, canonical, healed, wellFormed, v, w);
  }

  /** After a heal that does not fail the two resolvers agree, and the verdict is never drift:
      it is `Confirmed` whenever any readable stash holds the token. */
  lemma ResolversAgreeAfterHeal(roster: seq<Account>, stash: Stash, canonical: Token, content: Content, landed: bool,
                                wellFormed: Token -> bool, v: Outcome)
    requires Consistent(roster, stash)
    requires !HealFails(roster, stash, canonical, content, landed)
    requires Justified(roster, stash, canonical, Healed(roster, stash, canonical, content, landed), wellFormed, v)
    ensures var healed := Healed(roster, stash, canonical, content, landed);
            && AccountFor(roster, stash, healed, canonical) == ResolveViaDisplay(roster, healed)
            && (v == Confirmed <==> exists i :: 0 <= i < |roster| && Matches(roster, stash, canonical, i))
  {
    var m := FirstMatch(roster, stash, canonical, 0);
    if m < |roster| {
      HealedDisplay(roster, stash, canonical, content, landed);
      assert Matches(roster, stash, canonical, m);
      OneVerdict(roster, stash, canonical, Healed(roster, stash, canonical, content, landed), wellFormed, v, Confirmed);
    }
  }

  /** A display that already names the one account holding the token is never rewritten. With
      a shared token the heal may move it, to the first row that holds the token. */
  lemma RightDisplayIsLeftAlone(roster: seq<Account>, stash: Stash, canonical: Token, content: Content, landed: bool)
    requires Consistent(roster, stash)
    requires var shown := ResolveViaDisplay(roster, content);
             shown.Some? && Matches(roster, stash, canonical, shown.value)
    ensures HealDue(roster, stash, canonical, content) <==>
            exists i :: 0 <= i < ResolveViaDisplay(roster, content).value && Matches(roster, stash, canonical, i)
  {
    var shown := ResolveViaDisplay(roster, content).value;
    var m := FirstMatch(roster, stash, canonical, 0);
    if m < shown {
      assert roster[m].uuid != roster[shown].uuid;
    } else {
      assert m == shown;
    }
  }
}
