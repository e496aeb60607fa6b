/** The roster and the capture plan of src/capture.rs. */
module Roster {
  import opened Wrappers
  import opened ClaudeState

  const STASH_PREFIX := "Sessiometer/"
  const ACCOUNT_UUID_MAX_LEN := 128

  /** A roster row. Its label is called `handle`: the other word is reserved here. */
  datatype Account = Account(uuid: string, handle: string, enabled: bool)
  datatype CaptureOutcome = Captured | Refreshed
  datatype PlanError = UuidMalformed

  /** `account_uuid_violation`, without the wording of the rule it names. */
  predicate Violates(uuid: string) {
    || |uuid| > ACCOUNT_UUID_MAX_LEN
    || exists c :: c in uuid && !UuidCharacter(c)
  }

  predicate UuidCharacter(c: char) {
    '0' <= c <= '9' || 'a' <= c <= 'z' || 'A' <= c <= 'Z' || c == '-' || c == '_'
  }

  /** The accepted uuids: at most 128 characters, each a letter, a digit, a hyphen or an
      underscore of US-ASCII (ANSI X3.4). */
  lemma AcceptedExactlyWhen(uuid: string)
    ensures !Violates(uuid) <==>
              && |uuid| <= 128
              && forall c :: c in uuid ==> c as int in {
                   45, 48, 49, 50, 51, 52, 53, 54, 55, 56, 57,
                   65, 66, 67, 68, 69, 70, 71, 72, 73, 74, 75, 76, 77,
                   78, 79, 80, 81, 82, 83, 84, 85, 86, 87, 88, 89, 90,
                   95,
                   97, 98, 99, 100, 101, 102, 103, 104, 105, 106, 107, 108, 109,
                   110, 111, 112, 113, 114, 115, 116, 117, 118, 119, 120, 121, 122}
  {
  }

  /** `Account::stash`: the stash name is a function of the uuid. */
  function StashName(uuid: string): string {
    STASH_PREFIX + uuid
  }

  // --- labels ---

  function TrimStart(s: string): string {
    if s != "" && IsWhitespace(s[0]) then TrimStart(s[1..]) else s
  }

  function TrimEnd(s: string): string {
    if s != "" && IsWhitespace(s[|s| - 1]) then TrimEnd(s[..|s| - 1]) else s
  }

  /** The label an operator provided: trimmed, and no label at all when nothing is left. */
  function Provided(handle: Option<string>): Option<string> {
    match handle
    case None => None
    case Some(l) => var trimmed := TrimEnd(TrimStart(l)); if trimmed == "" then None else Some(trimmed)
  }

  lemma {:induction false} TrimEndEmpty(s: string)
    ensures TrimEnd(s) == "" <==> Blank(s)
  {
    if s != "" {
      var last := s[|s| - 1];
      if IsWhitespace(last) {
        TrimEndEmpty(s[..|s| - 1]);
        assert s == s[..|s| - 1] + [last];
      } else {
        assert last in s;
      }
    }
  }

  lemma {:induction false} TrimStartBlank(s: string)
    ensures Blank(TrimStart(s)) <==> Blank(s)
  {
    if s != "" && IsWhitespace(s[0]) {
      TrimStartBlank(s[1..]);
      assert s == [s[0]] + s[1..];
    }
  }

  ghost predicate Trimmed(t: string) {
    t != "" && !IsWhitespace(t[0]) && !IsWhitespace(t[|t| - 1])
  }

  lemma {:induction false} TrimStartCuts(s: string) returns (before: string)
    ensures s == before + TrimStart(s) && Blank(before)
    ensures TrimStart(s) != "" ==> !IsWhitespace(TrimStart(s)[0])
  {
    before := "";
    if s != "" && IsWhitespace(s[0]) {
      var rest := TrimStartCuts(s[1..]);
      before := [s[0]] + rest;
    }
  }

  lemma {:induction false} TrimEndCuts(s: string) returns (after: string)
    ensures s == TrimEnd(s) + after && Blank(after)
    ensures TrimEnd(s) != "" ==> !IsWhitespace(TrimEnd(s)[|TrimEnd(s)| - 1])
  {
    after := "";
    if s != "" && IsWhitespace(s[|s| - 1]) {
      var rest := TrimEndCuts(s[..|s| - 1]);
      after := rest + [s[|s| - 1]];
    }
  }

  /** Nothing else comes out of trimming than what is between the blanks. */
  lemma OneTrimming(l: string, before: string, t: string, after: string)
    requires l == before + t + after && Blank(before) && Blank(after) && Trimmed(t)
    ensures TrimEnd(TrimStart(l)) == t
  {
    TrimStartDrops(before, t + after);
    assert l == before + (t + after);
    TrimEndDrops(t, after);
  }

  lemma {:induction false} TrimStartDrops(before: string, t: string)
    requires Blank(before) && t != "" && !IsWhitespace(t[0])
    ensures TrimStart(before + t) == t
  {
    if before == "" {
      assert before + t == t;
    } else {
      assert before[0] in before && (before + t)[1..] == before[1..] + t;
      TrimStartDrops(before[1..], t);
    }
  }

  lemma {:induction false} TrimEndDrops(t: string, after: string)
    requires Blank(after) && t != "" && !IsWhitespace(t[|t| - 1])
    ensures TrimEnd(t + after) == t
  {
    if after == "" {
      assert t + after == t;
    } else {
      var n := |after| - 1;
      assert after[n] in after && (t + after)[..|t| + n] == t + after[..n];
      TrimEndDrops(t, after[..n]);
    }
  }

  /** The label provided is what is given without the whitespace around it. */
  lemma ProvidedIsTrimmed(l: string, t: string)
    ensures Provided(Some(l)) == Some(t) <==>
              exists before, after :: l == before + t + after && Blank(before) && Blank(after) && Trimmed(t)
  {
    if before, after :| l == before + t + after && Blank(before) && Blank(after) && Trimmed(t) {
      OneTrimming(l, before, t, after);
    }
    if Provided(Some(l)) == Some(t) {
      var started := TrimStart(l);
      var before := TrimStartCuts(l);
      var after := TrimEndCuts(started);
      assert t[0] == started[0];
      assert l == before + t + after;
    }
  }

  /** A label is provided exactly when it is given and not all whitespace. */
  lemma ProvidedExactlyWhenNotBlank(handle: Option<string>)
    ensures Provided(handle).Some? <==> handle.Some? && !Blank(handle.value)
  {
    if handle.Some? {
      TrimEndEmpty(TrimStart(handle.value));
      TrimStartBlank(handle.value);
    }
  }

  // --- the plan ---

  ghost predicate UniqueUuids(accounts: seq<Account>) {
    forall i, j :: 0 <= i < j < |accounts| ==> accounts[i].uuid != accounts[j].uuid
  }

  ghost predicate Rostered(accounts: seq<Account>, uuid: string) {
    exists i :: 0 <= i < |accounts| && accounts[i].uuid == uuid
  }

  /** The first row of the account, or the length. */
  function IndexOf(accounts: seq<Account>, uuid: string): (at: nat)
    ensures at <= |accounts|
    ensures forall i :: 0 <= i < at ==> accounts[i].uuid != uuid
    ensures at < |accounts| ==> accounts[at].uuid == uuid
  {
    if accounts == [] || accounts[0].uuid == uuid then 0 else 1 + IndexOf(accounts[1..], uuid)
  }

  function Relabelled(account: Account, handle: Option<string>): Account {
    match Provided(handle)
    case Some(l) => account.(handle := l)
    case None => account
  }

  /** The roster after planning the capture of `uuid`. */
  function Planned(accounts: seq<Account>, uuid: string, handle: Option<string>): seq<Account> {
    var at := IndexOf(accounts, uuid);
    if Violates(uuid) then accounts
    else if at < |accounts| then accounts[at := Relabelled(accounts[at], handle)]
    else accounts + [Relabelled(Account(uuid, uuid, true), handle)]
  }

  function PlanResult(accounts: seq<Account>, uuid: string): Result<(string, CaptureOutcome), PlanError> {
    if Violates(uuid) then Err(UuidMalformed)
    else Ok((StashName(uuid), if IndexOf(accounts, uuid) < |accounts| then Refreshed else Captured))
  }

  /** An account is refreshed exactly when it was rostered already. */
  lemma RefreshedExactlyWhenRostered(accounts: seq<Account>, uuid: string)
    ensures PlanResult(accounts, uuid) == Err(UuidMalformed) <==> Violates(uuid)
    ensures PlanResult(accounts, uuid) == Ok(("Sessiometer/" + uuid, Refreshed)) <==>
              !Violates(uuid) && Rostered(accounts, uuid)
  {
  }

  class LiveRoster {
    var accounts: seq<Account>

    constructor (accounts: seq<Account>)
      ensures this.accounts == accounts
    {
      this.accounts := accounts;
    }

    /** `plan_capture`: updates a row in place or appends one. */
    method PlanCapture(uuid: string, handle: Option<string>)
      returns (r: Result<(string, CaptureOutcome), PlanError>)
      modifies this
      ensures accounts == Planned(old(accounts), uuid, handle)
      ensures r == PlanResult(old(accounts), uuid)
      ensures r.Err? <==> Violates(uuid)
      ensures r.Ok? ==>
                && r.value.0 == "Sessiometer/" + uuid
                && (r.value.1 == Refreshed <==> Rostered(old(accounts), uuid))
      ensures r.Err? ==> accounts == old(accounts)
      ensures r.Ok? ==> Rostered(accounts, uuid) && |old(accounts)| <= |accounts| <= |old(accounts)| + 1
    {
      if Violates(uuid) {
        return Err(UuidMalformed);
      }
      var provided := Provided(handle);
      var i := 0;
      while i < |accounts|
        invariant 0 <= i <= |accounts| && accounts == old(accounts)
        invariant forall k :: 0 <= k < i ==> accounts[k].uuid != uuid
      {
        if accounts[i].uuid == uuid {
          assert IndexOf(accounts, uuid) == i;
          if provided.Some? {
            accounts := accounts[i := accounts[i].(handle := provided.value)];
          }
          assert accounts[i].uuid == uuid;
          return Ok((StashName(uuid), Refreshed));
        }
        i := i + 1;
      }
      assert IndexOf(accounts, uuid) == |accounts|;
      var derived := if provided.Some? then provided.value else uuid;
      accounts := accounts + [Account(uuid, derived, true)];
      assert accounts[|accounts| - 1].uuid == uuid;
      return Ok((StashName(uuid), Captured));
    }

    /** The later lookup of the row just planned, by its stash name. */
    method FindByStash(name: string) returns (at: nat)
      ensures at <= |accounts|
      ensures forall i :: 0 <= i < at ==> StashName(accounts[i].uuid) != name
      ensures at < |accounts| ==> StashName(accounts[at].uuid) == name
    {
      at := 0;
      while at < |accounts| && StashName(accounts[at].uuid) != name
        invariant 0 <= at <= |accounts|
        invariant forall i :: 0 <= i < at ==> StashName(accounts[i].uuid) != name
      {
        at := at + 1;
      }
    }
  }

  lemma StashNameInjective(a: string, b: string)
    ensures StashName(a) == StashName(b) <==> a == b
  {
    assert StashName(a)[|STASH_PREFIX|..] == a && StashName(b)[|STASH_PREFIX|..] == b;
  }

  /** The lookup by stash name always finds the planned row, and its label is the one
      provided, else the prior one, else the uuid. */
  lemma PlannedRowIsFound(accounts: seq<Account>, uuid: string, handle: Option<string>, found: nat)
    requires !Violates(uuid)
    requires var after := Planned(accounts, uuid, handle);
             && found <= |after|
             && (forall i :: 0 <= i < found ==> StashName(after[i].uuid) != StashName(uuid))
             && (found < |after| ==> StashName(after[found].uuid) == StashName(uuid))
    ensures var after := Planned(accounts, uuid, handle);
            var at := IndexOf(accounts, uuid);
            && found == at < |after|
            && after[found].handle == match Provided(handle)
                                     case Some(l) => l
                                     case None => if at < |accounts| then accounts[at].handle else uuid
  {
    var after := Planned(accounts, uuid, handle);
    var at := IndexOf(accounts, uuid);
    assert after[at].uuid == uuid;
    if found < |after| { StashNameInjective(after[found].uuid, uuid); }
    forall i | 0 <= i < at ensures StashName(after[i].uuid) != StashName(uuid) {
      StashNameInjective(after[i].uuid, uuid);
    }
  }

  // --- the roster as a fold ---

  datatype Call = Call(uuid: string, handle: Option<string>)

  /** The roster after a sequence of planning calls, accepted or rejected. */
  ghost function Fold(accounts: seq<Account>, calls: seq<Call>): seq<Account> {
    if calls == [] then accounts
    else
      var last := calls[|calls| - 1];
      Planned(Fold(accounts, calls[..|calls| - 1]), last.uuid, last.handle)
  }

  /** The last label provided for the account by a call that was not rejected. */
  ghost function LastProvided(calls: seq<Call>, uuid: string): Option<string> {
    if calls == [] then None
    else
      var last := calls[|calls| - 1];
      if last.uuid == uuid && !Violates(uuid) && Provided(last.handle).Some? then Provided(last.handle)
      else LastProvided(calls[..|calls| - 1], uuid)
  }

  ghost predicate Accepted(calls: seq<Call>, uuid: string) {
    !Violates(uuid) && exists k :: 0 <= k < |calls| && calls[k].uuid == uuid
  }

  ghost function OrElse(handle: Option<string>, fallback: string): string {
    match handle
    case Some(l) => l
    case None => fallback
  }

  /** The rows a roster starts with stay where they are, relabelled and nothing more. */
  ghost predicate Unmoved(accounts: seq<Account>, calls: seq<Call>, after: seq<Account>) {
    && |accounts| <= |after|
    && forall i :: 0 <= i < |accounts| ==>
         after[i] == accounts[i].(handle := OrElse(LastProvided(calls, accounts[i].uuid), accounts[i].handle))
  }

  /** The rows that join come from accepted calls, labelled and enabled. */
  ghost predicate Joined(accounts: seq<Account>, calls: seq<Call>, after: seq<Account>) {
    forall i :: |accounts| <= i < |after| ==>
      && Accepted(calls, after[i].uuid)
      && after[i] == Account(after[i].uuid, OrElse(LastProvided(calls, after[i].uuid), after[i].uuid), true)
  }

  ghost predicate AllJoined(calls: seq<Call>, after: seq<Account>) {
    forall uuid :: Accepted(calls, uuid) ==> Rostered(after, uuid)
  }

  /** Uuids stay unique; no account is dropped, moved, or has its enabled flag changed; each
      label is the last one provided, else the prior one, else the uuid; and the accounts
      that join are exactly those of the accepted calls. */
  lemma {:induction false} RosterIsAFold(accounts: seq<Account>, calls: seq<Call>)
    requires UniqueUuids(accounts)
    ensures var after := Fold(accounts, calls);
            UniqueUuids(after) && Unmoved(accounts, calls, after) && Joined(accounts, calls, after)
            && AllJoined(calls, after)
  {
    if calls != [] {
      var earlier := calls[..|calls| - 1];
      var before := Fold(accounts, earlier);
      RosterIsAFold(accounts, earlier);
      PlannedStaysUnique(before, calls[|calls| - 1]);
      RowsStep(accounts, calls, before);
      forall uuid | Accepted(calls, uuid) ensures Rostered(Fold(accounts, calls), uuid) {
        AcceptedStep(calls, uuid);
        PlannedRosters(before, calls[|calls| - 1], uuid);
      }
    }
  }

  lemma PlannedStaysUnique(before: seq<Account>, call: Call)
    requires UniqueUuids(before)
    ensures UniqueUuids(Planned(before, call.uuid, call.handle))
  {
    var at := IndexOf(before, call.uuid);
    var after := Planned(before, call.uuid, call.handle);
    assert forall i :: 0 <= i < |before| ==> after[i].uuid == before[i].uuid;
  }

  lemma PlannedRosters(before: seq<Account>, call: Call, uuid: string)
    requires Rostered(before, uuid) || (uuid == call.uuid && !Violates(uuid))
    ensures Rostered(Planned(before, call.uuid, call.handle), uuid)
  {
    var after := Planned(before, call.uuid, call.handle);
    if Rostered(before, uuid) {
      var i :| 0 <= i < |before| && before[i].uuid == uuid;
      assert after[i].uuid == uuid;
    } else {
      assert after[IndexOf(before, uuid)].uuid == uuid;
    }
  }

  lemma AcceptedStep(calls: seq<Call>, uuid: string)
    requires calls != []
    ensures Accepted(calls, uuid) <==>
            || Accepted(calls[..|calls| - 1], uuid)
            || (!Violates(uuid) && calls[|calls| - 1].uuid == uuid)
  {
    var earlier := calls[..|calls| - 1];
    if Accepted(calls, uuid) {
      var k :| 0 <= k < |calls| && calls[k].uuid == uuid;
      if k < |earlier| { assert earlier[k].uuid == uuid; }
    }
    if Accepted(earlier, uuid) {
      var k :| 0 <= k < |earlier| && earlier[k].uuid == uuid;
      assert calls[k].uuid == uuid;
    }
  }

  lemma RowsStep(accounts: seq<Account>, calls: seq<Call>, before: seq<Account>)
    requires calls != [] && UniqueUuids(before)
    requires var earlier := calls[..|calls| - 1];
             Unmoved(accounts, earlier, before) && Joined(accounts, earlier, before) && AllJoined(earlier, before)
    ensures var after := Planned(before, calls[|calls| - 1].uuid, calls[|calls| - 1].handle);
            Unmoved(accounts, calls, after) && Joined(accounts, calls, after)
  {
    var call, earlier := calls[|calls| - 1], calls[..|calls| - 1];
    var after := Planned(before, call.uuid, call.handle);
    var at := IndexOf(before, call.uuid);
    forall i | 0 <= i < |before|
      ensures after[i] == if i == at && !Violates(call.uuid) then Relabelled(before[i], call.handle) else before[i]
      ensures i == at <==> before[i].uuid == call.uuid
    {
      if i > at { assert before[at].uuid != before[i].uuid; }
    }
    forall i | |accounts| <= i < |after|
      ensures Accepted(calls, after[i].uuid)
      ensures after[i] == Account(after[i].uuid, OrElse(LastProvided(calls, after[i].uuid), after[i].uuid), true)
    {
      AcceptedStep(calls, after[i].uuid);
      if i == |before| {
        NeverProvidedBeforeJoining(earlier, before, call.uuid);
      }
    }
  }

  /** An account not yet in the roster has been given no label by the calls so far. */
  lemma NeverProvidedBeforeJoining(calls: seq<Call>, after: seq<Account>, uuid: string)
    requires AllJoined(calls, after) && !Rostered(after, uuid)
    ensures LastProvided(calls, uuid) == None
  {
    if LastProvided(calls, uuid).Some? {
      LastProvidedIsAccepted(calls, uuid);
    }
  }

  lemma {:induction false} LastProvidedIsAccepted(calls: seq<Call>, uuid: string)
    requires LastProvided(calls, uuid).Some?
    ensures Accepted(calls, uuid)
  {
    var n := |calls| - 1;
    var last := calls[n];
    if !(last.uuid == uuid && !Violates(uuid) && Provided(last.handle).Some?) {
      LastProvidedIsAccepted(calls[..n], uuid);
      var k :| 0 <= k < n && calls[..n][k].uuid == uuid;
      assert calls[k].uuid == uuid;
    }
  }
}
