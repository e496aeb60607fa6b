/** The severity manifest of src/cross_surface.rs and the self-check it must pass before
    either surface may be compared with it. */
module Manifest {
  import opened Wrappers
  import opened FaultRanks

  const MANIFEST_SCHEMA := 3

  datatype ExclusiveGroup = ExclusiveGroup(wireField: string, members: seq<string>)
  datatype ArbitrationEdge = ArbitrationEdge(winner: string, loser: string)
  datatype AccountCase = AccountCase(name: string, sessionSeverity: Option<string>, weeklySeverity: Option<string>)
  datatype ExpiryCase = ExpiryCase(name: string, horizonState: string, cell: string, severity: Option<string>)

  datatype Contract = Contract(
    schema: nat,
    ranks: seq<FaultRank>,
    provenanceVariants: seq<string>,
    groups: seq<ExclusiveGroup>,
    edges: seq<ArbitrationEdge>,
    accountCases: seq<AccountCase>,
    expiryCases: seq<ExpiryCase>,
    divergences: seq<string>)

  // --- unordered pairs ---

  /** String order, character by character. */
  predicate AtMost(a: string, b: string) {
    if a == "" then true
    else if b == "" then false
    else if a[0] != b[0] then a[0] < b[0]
    else AtMost(a[1..], b[1..])
  }

  function Unordered(a: string, b: string): (string, string) {
    if AtMost(a, b) then (a, b) else (b, a)
  }

  lemma {:induction false} AtMostIsAnOrder(a: string, b: string)
    ensures AtMost(a, b) || AtMost(b, a)
    ensures AtMost(a, b) && AtMost(b, a) ==> a == b
  {
    if a != "" && b != "" {
      AtMostIsAnOrder(a[1..], b[1..]);
      assert a == [a[0]] + a[1..] && b == [b[0]] + b[1..];
    }
  }

  /** The pair forgets the order of its two names, and nothing else. */
  lemma UnorderedForgetsOrder(a: string, b: string, c: string, d: string)
    ensures AtMost(Unordered(a, b).0, Unordered(a, b).1)
    ensures Unordered(a, b) == Unordered(c, d) <==> (a == c && b == d) || (a == d && b == c)
  {
    AtMostIsAnOrder(a, b);
    AtMostIsAnOrder(c, d);
  }

  // --- what the check accepts ---

  ghost function Ids(m: Contract): seq<string> {
    seq(|m.ranks|, i requires 0 <= i < |m.ranks| => m.ranks[i].id)
  }

  ghost predicate Distinct<T>(s: seq<T>) {
    forall i, j :: 0 <= i < j < |s| ==> s[i] != s[j]
  }

  /** The pairs the check excludes: two positions of one group. */
  ghost function ExcludedPairs(groups: seq<ExclusiveGroup>): set<(string, string)> {
    set g, i, j | 0 <= g < |groups| && 0 <= i < j < |groups[g].members| ::
      Unordered(groups[g].members[i], groups[g].members[j])
  }

  ghost function EdgePair(e: ArbitrationEdge): (string, string) {
    Unordered(e.winner, e.loser)
  }

  ghost predicate PointsDown(m: Contract, e: ArbitrationEdge) {
    exists i, j :: 0 <= i < j < |m.ranks| && m.ranks[i].id == e.winner && m.ranks[j].id == e.loser
  }

  ghost predicate RanksAccepted(m: Contract) {
    && m.schema == MANIFEST_SCHEMA
    && m.ranks != []
    && Distinct(Ids(m))
    && (forall i :: 0 <= i < |m.ranks| ==> m.ranks[i].rank == i + 1 && m.ranks[i].severity in {RED, YELLOW, PLAIN})
    && |m.provenanceVariants| >= 2
  }

  ghost predicate GroupAccepted(m: Contract, g: ExclusiveGroup) {
    |g.members| >= 2 && forall a :: a in g.members ==> a in Ids(m)
  }

  ghost predicate EdgesAccepted(m: Contract) {
    && (forall k :: 0 <= k < |m.edges| ==>
          PointsDown(m, m.edges[k]) && EdgePair(m.edges[k]) !in ExcludedPairs(m.groups))
    && (forall k, l :: 0 <= k < l < |m.edges| ==> EdgePair(m.edges[k]) != EdgePair(m.edges[l]))
    && |m.edges| + |ExcludedPairs(m.groups)| == |m.ranks| * (|m.ranks| - 1) / 2
  }

  ghost predicate AccountCaseAccepted(c: AccountCase) {
    AccountBand(c.sessionSeverity) && AccountBand(c.weeklySeverity)
  }

  /** No reading has no band. */
  ghost predicate AccountBand(severity: Option<string>) {
    match severity
    case Some(band) => band == "red" || band == "yellow" || band == "green" || band == "plain"
    case None => true
  }

  const HORIZON_STATES: seq<string> := ["within", "beyond", "lapsed", "unknown"]

  /** An expiry that is not known has no band, and renders as the gap. */
  ghost predicate ExpiryCaseAccepted(c: ExpiryCase) {
    match c.severity
    case Some(band) =>
      && (c.horizonState == "within" || c.horizonState == "beyond" || c.horizonState == "lapsed")
      && (band == "red" || band == "yellow" || band == "dim")
    case None =>
      || c.horizonState == "within" || c.horizonState == "beyond" || c.horizonState == "lapsed"
      || (c.horizonState == "unknown" && c.cell == "\U{2014}")
  }

  ghost predicate StateWalked(m: Contract, state: string) {
    exists k :: 0 <= k < |m.expiryCases| && m.expiryCases[k].horizonState == state
  }

  ghost predicate AccountCasesAccepted(m: Contract) {
    m.accountCases != [] && forall c :: c in m.accountCases ==> AccountCaseAccepted(c)
  }

  ghost predicate ExpiryCasesAccepted(m: Contract) {
    && StateWalked(m, "within") && StateWalked(m, "beyond") && StateWalked(m, "lapsed") && StateWalked(m, "unknown")
    && forall c :: c in m.expiryCases ==> ExpiryCaseAccepted(c)
  }

  ghost predicate CasesAccepted(m: Contract) {
    AccountCasesAccepted(m) && ExpiryCasesAccepted(m) && m.divergences != []
  }

  ghost predicate Accepted(m: Contract) {
    && RanksAccepted(m)
    && (forall g :: g in m.groups ==> GroupAccepted(m, g))
    && EdgesAccepted(m)
    && CasesAccepted(m)
  }

  // --- the check ---

  /** `assert_internally_consistent`, returning whether every assertion held. */
  method InternallyConsistent(m: Contract) returns (ok: bool)
    ensures ok <==> Accepted(m)
  {
    var ranksOk := CheckRanks(m);
    if !ranksOk { return false; }
    var groupsOk, excluded := CollectExcluded(m);
    if !groupsOk { return false; }
    var edgesOk := CheckEdges(m, excluded);
    if !edgesOk { return false; }
    var accountsOk := CheckAccountCases(m);
    if !accountsOk { return false; }
    var expiriesOk := CheckExpiryCases(m);
    return expiriesOk && m.divergences != [];
  }

  method CheckRanks(m: Contract) returns (ok: bool)
    ensures ok <==> RanksAccepted(m)
  {
    if m.schema != MANIFEST_SCHEMA || m.ranks == [] { return false; }
    var ids: set<string> := {};
    for i := 0 to |m.ranks|
      invariant ids == Elements(Ids(m)[..i])
    {
      assert Ids(m)[..i + 1] == Ids(m)[..i] + [m.ranks[i].id];
      ids := ids + {m.ranks[i].id};
    }
    assert Ids(m)[..|m.ranks|] == Ids(m);
    DistinctExactlyWhenCounted(Ids(m));
    if |ids| != |m.ranks| { return false; }
    for index := 0 to |m.ranks|
      invariant forall i :: 0 <= i < index ==>
                  m.ranks[i].rank == i + 1 && m.ranks[i].severity in {RED, YELLOW, PLAIN}
    {
      var entry := m.ranks[index];
      if entry.rank != index + 1 || entry.severity !in {RED, YELLOW, PLAIN} { return false; }
    }
    return |m.provenanceVariants| >= 2;
  }

  method CollectExcluded(m: Contract) returns (ok: bool, excluded: set<(string, string)>)
    ensures ok <==> forall g :: g in m.groups ==> GroupAccepted(m, g)
    ensures ok ==> excluded == ExcludedPairs(m.groups)
  {
    excluded := {};
    for g := 0 to |m.groups|
      invariant forall k :: 0 <= k < g ==> GroupAccepted(m, m.groups[k])
      invariant excluded == ExcludedPairs(m.groups[..g])
    {
      var group := m.groups[g];
      assert group in m.groups;
      if |group.members| < 2 { return false, excluded; }
      for k := 0 to |group.members|
        invariant forall l :: 0 <= l < k ==> group.members[l] in Ids(m)
      {
        var known := RankOf(m, group.members[k]);
        if known.None? { return false, excluded; }
      }
      var pairs := PairsOf(group.members);
      GroupExcludes(m.groups, g, pairs);
      excluded := excluded + pairs;
    }
    assert m.groups[..|m.groups|] == m.groups;
    return true, excluded;
  }

  /** The nested loop over one group's members. */
  method PairsOf(members: seq<string>) returns (pairs: set<(string, string)>)
    ensures pairs == set i, j | 0 <= i < j < |members| :: Unordered(members[i], members[j])
  {
    pairs := {};
    for i := 0 to |members|
      invariant pairs == set p, q | 0 <= p < i && p < q < |members| :: Unordered(members[p], members[q])
    {
      for j := i + 1 to |members|
        invariant pairs == (set p, q | 0 <= p < i && p < q < |members| :: Unordered(members[p], members[q]))
                         + (set q | i < q < j :: Unordered(members[i], members[q]))
      {
        pairs := pairs + {Unordered(members[i], members[j])};
      }
    }
  }

  /** `rank_of`: where the id is ranked, or `None` where the source panics. */
  method RankOf(m: Contract, id: string) returns (at: Option<nat>)
    ensures at.Some? <==> id in Ids(m)
    ensures at.Some? ==> at.value < |m.ranks| && m.ranks[at.value].id == id
  {
    for i := 0 to |m.ranks|
      invariant forall k :: 0 <= k < i ==> m.ranks[k].id != id
    {
      if m.ranks[i].id == id {
        assert Ids(m)[i] == id;
        return Some(i);
      }
    }
    return None;
  }

  method CheckEdges(m: Contract, excluded: set<(string, string)>) returns (ok: bool)
    requires RanksAccepted(m) && excluded == ExcludedPairs(m.groups)
    ensures ok <==> EdgesAccepted(m)
  {
    var seen: set<(string, string)> := {};
    for k := 0 to |m.edges|
      invariant seen == set l | 0 <= l < k :: EdgePair(m.edges[l])
      invariant forall l :: 0 <= l < k ==> PointsDown(m, m.edges[l]) && EdgePair(m.edges[l]) !in excluded
      invariant forall l, l' :: 0 <= l < l' < k ==> EdgePair(m.edges[l]) != EdgePair(m.edges[l'])
    {
      var edge := m.edges[k];
      var winner := RankOf(m, edge.winner);
      var loser := RankOf(m, edge.loser);
      PointsDownByRank(m, edge, winner, loser);
      if winner.None? || loser.None? || winner.value >= loser.value { return false; }
      var pair := Unordered(edge.winner, edge.loser);
      if pair in excluded { return false; }
      if pair in seen { return false; }
      seen := seen + {pair};
    }
    // `n * (n - 1) / 2 - excluded` is an assertion failure of its own when it underflows.
    var pairs := |m.ranks| * (|m.ranks| - 1) / 2;
    return |excluded| <= pairs && |m.edges| == pairs - |excluded|;
  }

  /** Only a band that is there is checked. */
  method CheckAccountCases(m: Contract) returns (ok: bool)
    ensures ok <==> AccountCasesAccepted(m)
  {
    if m.accountCases == [] { return false; }
    for k := 0 to |m.accountCases|
      invariant forall l :: 0 <= l < k ==> AccountCaseAccepted(m.accountCases[l])
    {
      var c := m.accountCases[k];
      assert c in m.accountCases;
      if c.sessionSeverity.Some? && c.sessionSeverity.value !in {RED, YELLOW, GREEN, PLAIN} { return false; }
      if c.weeklySeverity.Some? && c.weeklySeverity.value !in {RED, YELLOW, GREEN, PLAIN} { return false; }
    }
    return true;
  }

  method CheckExpiryCases(m: Contract) returns (ok: bool)
    ensures ok <==> ExpiryCasesAccepted(m)
  {
    if m.expiryCases == [] { return false; }
    for s := 0 to |HORIZON_STATES|
      invariant forall t :: 0 <= t < s ==> StateWalked(m, HORIZON_STATES[t])
    {
      var walked := Walks(m, HORIZON_STATES[s]);
      if !walked { return false; }
    }
    FourStates(m);
    for k := 0 to |m.expiryCases|
      invariant forall l :: 0 <= l < k ==> ExpiryCaseAccepted(m.expiryCases[l])
    {
      var c := m.expiryCases[k];
      assert c in m.expiryCases;
      if c.horizonState !in HORIZON_STATES { return false; }
      if c.severity.Some? && c.severity.value !in {RED, YELLOW, DIM} { return false; }
      if c.horizonState == "unknown" {
        if c.severity != None { return false; }
        if c.cell != "\U{2014}" { return false; }
      }
    }
    return true;
  }

  method Walks(m: Contract, state: string) returns (walked: bool)
    ensures walked <==> StateWalked(m, state)
  {
    for k := 0 to |m.expiryCases|
      invariant forall l :: 0 <= l < k ==> m.expiryCases[l].horizonState != state
    {
      if m.expiryCases[k].horizonState == state { return true; }
    }
    return false;
  }

  lemma FourStates(m: Contract)
    ensures (forall t :: 0 <= t < |HORIZON_STATES| ==> StateWalked(m, HORIZON_STATES[t])) <==>
              && StateWalked(m, "within") && StateWalked(m, "beyond")
              && StateWalked(m, "lapsed") && StateWalked(m, "unknown")
    ensures forall state :: state in HORIZON_STATES <==> state in {"within", "beyond", "lapsed", "unknown"}
  {
    var states := HORIZON_STATES;
    assert |states| == 4 && states[0] == "within" && states[1] == "beyond"
        && states[2] == "lapsed" && states[3] == "unknown";
  }

  lemma PointsDownByRank(m: Contract, e: ArbitrationEdge, winner: Option<nat>, loser: Option<nat>)
    requires RanksAccepted(m)
    requires winner.Some? <==> e.winner in Ids(m)
    requires loser.Some? <==> e.loser in Ids(m)
    requires winner.Some? ==> winner.value < |m.ranks| && m.ranks[winner.value].id == e.winner
    requires loser.Some? ==> loser.value < |m.ranks| && m.ranks[loser.value].id == e.loser
    ensures PointsDown(m, e) <==> winner.Some? && loser.Some? && winner.value < loser.value
  {
    if PointsDown(m, e) {
      var i, j :| 0 <= i < j < |m.ranks| && m.ranks[i].id == e.winner && m.ranks[j].id == e.loser;
      assert Ids(m)[i] == e.winner && Ids(m)[j] == e.loser;
      assert Ids(m)[winner.value] == e.winner && Ids(m)[loser.value] == e.loser;
    }
  }

  lemma GroupExcludes(groups: seq<ExclusiveGroup>, g: nat, pairs: set<(string, string)>)
    requires g < |groups|
    requires pairs == set i, j | 0 <= i < j < |groups[g].members| ::
               Unordered(groups[g].members[i], groups[g].members[j])
    ensures ExcludedPairs(groups[..g + 1]) == ExcludedPairs(groups[..g]) + pairs
  {
    var before, after := groups[..g], groups[..g + 1];
    forall p ensures p in ExcludedPairs(after) <==> p in ExcludedPairs(before) + pairs {
      if p in ExcludedPairs(after) {
        var h, i, j :| 0 <= h < |after| && 0 <= i < j < |after[h].members| &&
                       p == Unordered(after[h].members[i], after[h].members[j]);
        assert h < g ==> before[h] == after[h];
      }
      if p in ExcludedPairs(before) {
        var h, i, j :| 0 <= h < |before| && 0 <= i < j < |before[h].members| &&
                       p == Unordered(before[h].members[i], before[h].members[j]);
        assert before[h] == after[h];
      }
      if p in pairs {
        assert after[g] == groups[g];
      }
    }
  }

  // --- counting ---

  ghost function Elements<T>(s: seq<T>): set<T> {
    set x | x in s
  }

  lemma {:induction false} ElementsAtMost<T>(s: seq<T>)
    ensures |Elements(s)| <= |s|
    ensures Distinct(s) ==> |Elements(s)| == |s|
  {
    if s != [] {
      var last := |s| - 1;
      ElementsAtMost(s[..last]);
      assert s == s[..last] + [s[last]];
      assert Elements(s) == Elements(s[..last]) + {s[last]};
    }
  }

  /** A list has no repeat exactly when it has as many elements as places. */
  lemma {:induction false} DistinctExactlyWhenCounted<T>(s: seq<T>)
    ensures |Elements(s)| == |s| <==> Distinct(s)
  {
    ElementsAtMost(s);
    if !Distinct(s) {
      var i, j :| 0 <= i < j < |s| && s[i] == s[j];
      var rest := s[..j] + s[j + 1..];
      ElementsAtMost(rest);
      forall x | x in s ensures x in rest {
        var k :| 0 <= k < |s| && s[k] == x;
        var at := if k < j then k else if k == j then i else k - 1;
        assert rest[at] == x;
      }
      forall x | x in rest ensures x in s {
      }
      assert Elements(s) == Elements(rest);
    }
  }

  /** The unordered pairs of the first `n` ids. */
  ghost function PairsAmong(ids: seq<string>, n: nat): set<(string, string)>
    requires n <= |ids|
  {
    if n == 0 then {} else PairsAmong(ids, n - 1) + PairsWith(ids, n - 1, n - 1)
  }

  ghost function PairsWith(ids: seq<string>, k: nat, n: nat): set<(string, string)>
    requires k <= n < |ids|
  {
    if k == 0 then {} else PairsWith(ids, k - 1, n) + {Unordered(ids[k - 1], ids[n])}
  }

  lemma {:induction false} InPairsWith(ids: seq<string>, k: nat, n: nat, p: (string, string))
    requires k <= n < |ids|
    ensures p in PairsWith(ids, k, n) <==> exists i :: 0 <= i < k && p == Unordered(ids[i], ids[n])
  {
    if k > 0 {
      InPairsWith(ids, k - 1, n, p);
    }
  }

  lemma {:induction false} InPairsAmong(ids: seq<string>, n: nat, p: (string, string))
    requires n <= |ids|
    ensures p in PairsAmong(ids, n) <==> exists i, j :: 0 <= i < j < n && p == Unordered(ids[i], ids[j])
  {
    if n > 0 {
      InPairsAmong(ids, n - 1, p);
      InPairsWith(ids, n - 1, n - 1, p);
      if p in PairsWith(ids, n - 1, n - 1) {
        var i :| 0 <= i < n - 1 && p == Unordered(ids[i], ids[n - 1]);
      }
    }
  }

  lemma {:induction false} CountPairsWith(ids: seq<string>, k: nat, n: nat)
    requires k <= n < |ids| && Distinct(ids)
    ensures |PairsWith(ids, k, n)| == k
  {
    if k > 0 {
      CountPairsWith(ids, k - 1, n);
      InPairsWith(ids, k - 1, n, Unordered(ids[k - 1], ids[n]));
      forall i | 0 <= i < k - 1 ensures Unordered(ids[i], ids[n]) != Unordered(ids[k - 1], ids[n]) {
        UnorderedForgetsOrder(ids[i], ids[n], ids[k - 1], ids[n]);
      }
    }
  }

  lemma PairIsNew(ids: seq<string>, n: nat, p: (string, string))
    requires n < |ids| && Distinct(ids) && p in PairsAmong(ids, n)
    ensures p !in PairsWith(ids, n, n)
  {
    InPairsAmong(ids, n, p);
    InPairsWith(ids, n, n, p);
    var i, j :| 0 <= i < j < n && p == Unordered(ids[i], ids[j]);
    forall k | 0 <= k < n ensures p != Unordered(ids[k], ids[n]) {
      UnorderedForgetsOrder(ids[i], ids[j], ids[k], ids[n]);
    }
  }

  /** The pairs one more id brings are all new. */
  lemma GrownPairsAreNew(ids: seq<string>, n: nat)
    requires n < |ids| && Distinct(ids)
    ensures PairsAmong(ids, n) !! PairsWith(ids, n, n)
  {
    forall p | p in PairsAmong(ids, n) ensures p !in PairsWith(ids, n, n) {
      PairIsNew(ids, n, p);
    }
  }

  ghost function Triangle(n: nat): nat {
    if n == 0 then 0 else Triangle(n - 1) + (n - 1)
  }

  lemma {:induction false} TriangleClosedForm(n: nat)
    ensures Triangle(n) == n * (n - 1) / 2
  {
    if n > 0 {
      TriangleClosedForm(n - 1);
      assert n * (n - 1) == (n - 1) * (n - 2) + 2 * (n - 1);
    }
  }

  lemma {:induction false} CountPairsAmong(ids: seq<string>, n: nat)
    requires n <= |ids| && Distinct(ids)
    ensures |PairsAmong(ids, n)| == Triangle(n)
  {
    if n > 0 {
      CountPairsAmong(ids, n - 1);
      CountPairsWith(ids, n - 1, n - 1);
      GrownPairsAreNew(ids, n - 1);
    }
  }

  /** `n` distinct ids make `n * (n - 1) / 2` unordered pairs. */
  lemma CountPairs(ids: seq<string>, n: nat)
    requires n <= |ids| && Distinct(ids)
    ensures |PairsAmong(ids, n)| == n * (n - 1) / 2
  {
    CountPairsAmong(ids, n);
    TriangleClosedForm(n);
  }

  // --- completeness of the arbitration edges ---

  ghost function EdgePairs(m: Contract): set<(string, string)> {
    set k | 0 <= k < |m.edges| :: EdgePair(m.edges[k])
  }

  /** Two ids are mutually exclusive when some group names both. */
  ghost predicate Exclusive(m: Contract, a: string, b: string) {
    exists g :: g in m.groups && a in g.members && b in g.members
  }

  /** The edges are exactly the rank-directed pairs that are not mutually exclusive. */
  ghost predicate EdgesComplete(m: Contract) {
    forall i, j :: 0 <= i < j < |m.ranks| ==>
      (ArbitrationEdge(m.ranks[i].id, m.ranks[j].id) in m.edges <==> !Exclusive(m, m.ranks[i].id, m.ranks[j].id))
  }

  ghost predicate NoRepeatedMember(m: Contract) {
    forall g :: g in m.groups ==> Distinct(g.members)
  }

  /** For two different names, sharing a group and being an excluded pair are the same. */
  lemma ExclusiveIsExcluded(m: Contract, a: string, b: string)
    requires a != b
    ensures Exclusive(m, a, b) <==> Unordered(a, b) in ExcludedPairs(m.groups)
  {
    if Exclusive(m, a, b) {
      var group :| group in m.groups && a in group.members && b in group.members;
      var g :| 0 <= g < |m.groups| && m.groups[g] == group;
      var i :| 0 <= i < |group.members| && group.members[i] == a;
      var j :| 0 <= j < |group.members| && group.members[j] == b;
      UnorderedForgetsOrder(a, b, b, a);
      if i < j {
        assert Unordered(m.groups[g].members[i], m.groups[g].members[j]) in ExcludedPairs(m.groups);
      } else {
        assert Unordered(m.groups[g].members[j], m.groups[g].members[i]) in ExcludedPairs(m.groups);
      }
    }
    if Unordered(a, b) in ExcludedPairs(m.groups) {
      var g, i, j :| 0 <= g < |m.groups| && 0 <= i < j < |m.groups[g].members| &&
                     Unordered(a, b) == Unordered(m.groups[g].members[i], m.groups[g].members[j]);
      UnorderedForgetsOrder(a, b, m.groups[g].members[i], m.groups[g].members[j]);
      assert m.groups[g] in m.groups;
    }
  }

  lemma CountEdges(m: Contract)
    requires Accepted(m)
    ensures |EdgePairs(m)| == |m.edges|
    ensures EdgePairs(m) <= PairsAmong(Ids(m), |m.ranks|) - ExcludedPairs(m.groups)
  {
    var pairs := seq(|m.edges|, k requires 0 <= k < |m.edges| => EdgePair(m.edges[k]));
    DistinctExactlyWhenCounted(pairs);
    assert Elements(pairs) == EdgePairs(m) by {
      assert forall k :: 0 <= k < |m.edges| ==> pairs[k] == EdgePair(m.edges[k]);
    }
    forall k | 0 <= k < |m.edges|
      ensures EdgePair(m.edges[k]) in PairsAmong(Ids(m), |m.ranks|)
    {
      assert PointsDown(m, m.edges[k]);
      var i, j :| 0 <= i < j < |m.ranks| && m.ranks[i].id == m.edges[k].winner && m.ranks[j].id == m.edges[k].loser;
      assert Ids(m)[i] == m.edges[k].winner && Ids(m)[j] == m.edges[k].loser;
      InPairsAmong(Ids(m), |m.ranks|, EdgePair(m.edges[k]));
    }
  }

  /** An edge between two ranked ids is listed exactly when their pair is. */
  lemma EdgeListedByPair(m: Contract, i: nat, j: nat)
    requires Accepted(m) && i < j < |m.ranks|
    ensures ArbitrationEdge(m.ranks[i].id, m.ranks[j].id) in m.edges
       <==> Unordered(m.ranks[i].id, m.ranks[j].id) in EdgePairs(m)
  {
    var a, b := m.ranks[i].id, m.ranks[j].id;
    assert Ids(m)[i] == a && Ids(m)[j] == b;
    if Unordered(a, b) in EdgePairs(m) {
      var k :| 0 <= k < |m.edges| && Unordered(a, b) == EdgePair(m.edges[k]);
      var e := m.edges[k];
      UnorderedForgetsOrder(a, b, e.winner, e.loser);
      assert PointsDown(m, e);
      var p, q :| 0 <= p < q < |m.ranks| && m.ranks[p].id == e.winner && m.ranks[q].id == e.loser;
      assert Ids(m)[p] == e.winner && Ids(m)[q] == e.loser;
      assert e == ArbitrationEdge(a, b);
    }
  }

  /** For two ranked ids: listed as an edge, exclusive, and counted, all by their pair. */
  lemma PairStatus(m: Contract, i: nat, j: nat)
    requires Accepted(m) && i < j < |m.ranks|
    ensures var a, b, pair := m.ranks[i].id, m.ranks[j].id, Unordered(m.ranks[i].id, m.ranks[j].id);
            && pair in PairsAmong(Ids(m), |m.ranks|)
            && (ArbitrationEdge(a, b) in m.edges <==> pair in EdgePairs(m))
            && (Exclusive(m, a, b) <==> pair in ExcludedPairs(m.groups))
  {
    EdgeListedByPair(m, i, j);
    var a, b := Ids(m)[i], Ids(m)[j];
    ExclusiveIsExcluded(m, a, b);
    InPairsAmong(Ids(m), |m.ranks|, Unordered(a, b));
  }

  /** The edges are complete exactly when they make up every pair left unexcluded. */
  lemma CompleteByPairs(m: Contract)
    requires Accepted(m)
    ensures EdgesComplete(m) <==> EdgePairs(m) == PairsAmong(Ids(m), |m.ranks|) - ExcludedPairs(m.groups)
  {
    CountEdges(m);
    var listed, left := EdgePairs(m), PairsAmong(Ids(m), |m.ranks|) - ExcludedPairs(m.groups);
    if EdgesComplete(m) {
      forall p | p in left ensures p in listed {
        InPairsAmong(Ids(m), |m.ranks|, p);
        var i, j :| 0 <= i < j < |m.ranks| && p == Unordered(Ids(m)[i], Ids(m)[j]);
        PairStatus(m, i, j);
      }
    }
    if listed == left {
      forall i, j | 0 <= i < j < |m.ranks|
        ensures ArbitrationEdge(m.ranks[i].id, m.ranks[j].id) in m.edges
           <==> !Exclusive(m, m.ranks[i].id, m.ranks[j].id)
      {
        PairStatus(m, i, j);
      }
    }
  }

  lemma SubsetCount<T>(small: set<T>, big: set<T>)
    requires small <= big
    ensures |big - small| == |big| - |small|
    ensures |small| == |big| ==> small == big
  {
    assert big == small + (big - small);
  }

  /** Excluded pairs are pairs of ranked ids unless a group repeats a member. */
  lemma ExcludedAmongIds(m: Contract)
    requires Accepted(m)
    ensures ExcludedPairs(m.groups) <= PairsAmong(Ids(m), |m.ranks|) <==> NoRepeatedMember(m)
  {
    var ids := Ids(m);
    if NoRepeatedMember(m) {
      forall p | p in ExcludedPairs(m.groups) ensures p in PairsAmong(ids, |m.ranks|) {
        var g, i, j :| 0 <= g < |m.groups| && 0 <= i < j < |m.groups[g].members| &&
                       p == Unordered(m.groups[g].members[i], m.groups[g].members[j]);
        var group := m.groups[g];
        assert group in m.groups && GroupAccepted(m, group);
        assert group.members[i] in ids && group.members[j] in ids;
        var k :| 0 <= k < |ids| && ids[k] == group.members[i];
        var l :| 0 <= l < |ids| && ids[l] == group.members[j];
        assert k != l;
        UnorderedForgetsOrder(ids[k], ids[l], ids[l], ids[k]);
        InPairsAmong(ids, |m.ranks|, p);
        if k < l { assert p == Unordered(ids[k], ids[l]); } else { assert p == Unordered(ids[l], ids[k]); }
      }
    } else {
      var group :| group in m.groups && !Distinct(group.members);
      var g :| 0 <= g < |m.groups| && m.groups[g] == group;
      var i, j :| 0 <= i < j < |group.members| && group.members[i] == group.members[j];
      var self := Unordered(m.groups[g].members[i], m.groups[g].members[j]);
      assert self in ExcludedPairs(m.groups);
      forall k, l | 0 <= k < l < |ids| ensures Unordered(ids[k], ids[l]) != self {
        UnorderedForgetsOrder(ids[k], ids[l], group.members[i], group.members[j]);
      }
      InPairsAmong(ids, |m.ranks|, self);
      assert self !in PairsAmong(ids, |m.ranks|);
    }
  }

  /** What is listed of what is left fills it exactly when nothing beyond was excluded. */
  lemma FilledExactlyWhen<T>(all: set<T>, excluded: set<T>, listed: set<T>)
    requires listed <= all - excluded && |listed| + |excluded| == |all|
    ensures listed == all - excluded <==> excluded <= all
  {
    assert all - excluded == all - (all * excluded);
    SubsetCount(all * excluded, all);
    SubsetCount(all * excluded, excluded);
    SubsetCount(listed, all - excluded);
  }

  /** Listed and excluded pairs are as many as there are pairs. */
  lemma PairsAreCounted(m: Contract)
    requires Accepted(m)
    ensures |EdgePairs(m)| + |ExcludedPairs(m.groups)| == |PairsAmong(Ids(m), |m.ranks|)|
  {
    CountPairs(Ids(m), |m.ranks|);
    CountEdges(m);
  }

  /** The main result: an accepted manifest lists every arbitration exactly when no
      exclusive group repeats a member. */
  lemma AcceptedIsCompleteExactlyWhen(m: Contract)
    requires Accepted(m)
    ensures EdgesComplete(m) <==> NoRepeatedMember(m)
  {
    PairsAreCounted(m);
    CountEdges(m);
    CompleteByPairs(m);
    ExcludedAmongIds(m);
    hide Accepted, EdgesComplete, NoRepeatedMember, PairsAmong, ExcludedPairs, EdgePairs;
    FilledExactlyWhen(PairsAmong(Ids(m), |m.ranks|), ExcludedPairs(m.groups), EdgePairs(m));
  }

  /** Each listed edge is a rank-directed pair, never exclusive, and listed once. */
  lemma AcceptedEdgesAreSound(m: Contract, e: ArbitrationEdge)
    requires Accepted(m) && e in m.edges
    ensures PointsDown(m, e) && !Exclusive(m, e.winner, e.loser)
    ensures multiset(m.edges)[e] == 1
  {
    var k :| 0 <= k < |m.edges| && m.edges[k] == e;
    assert PointsDown(m, e);
    var i, j :| 0 <= i < j < |m.ranks| && m.ranks[i].id == e.winner && m.ranks[j].id == e.loser;
    assert Ids(m)[i] == e.winner && Ids(m)[j] == e.loser;
    ExclusiveIsExcluded(m, e.winner, e.loser);
    assert m.edges == m.edges[..k] + [e] + m.edges[k + 1..];
    forall l | 0 <= l < |m.edges| && l != k ensures m.edges[l] != e {
      if l < k { assert EdgePair(m.edges[l]) != EdgePair(m.edges[k]); }
      else { assert EdgePair(m.edges[k]) != EdgePair(m.edges[l]); }
    }
    assert e !in m.edges[..k] && e !in m.edges[k + 1..];
    assert multiset(m.edges) == multiset(m.edges[..k]) + multiset{e} + multiset(m.edges[k + 1..]);
  }

  /** A manifest whose one exclusive group names the same fault twice. */
  const REPEATED_MEMBER: Contract :=
    Contract(
      MANIFEST_SCHEMA,
      [FaultRank(1, "a", RED), FaultRank(2, "b", RED)],
      ["none", "sweep"],
      [ExclusiveGroup("wire", ["a", "a"])],
      [],
      [AccountCase("case", None, None)],
      [ExpiryCase("near", "within", "1d", None), ExpiryCase("far", "beyond", "9d", None),
       ExpiryCase("past", "lapsed", "lapsed", None), ExpiryCase("gap", "unknown", "\U{2014}", None)],
      ["divergence"])

  lemma RepeatedMemberExcludesOnePair()
    ensures ExcludedPairs(REPEATED_MEMBER.groups) == {Unordered("a", "a")}
  {
    var groups := REPEATED_MEMBER.groups;
    assert groups[0].members[0] == "a" && groups[0].members[1] == "a";
    assert Unordered(groups[0].members[0], groups[0].members[1]) in ExcludedPairs(groups);
  }

  lemma RepeatedMemberCases()
    ensures CasesAccepted(REPEATED_MEMBER)
  {
    var cases := REPEATED_MEMBER.expiryCases;
    assert cases[0].horizonState == "within" && cases[1].horizonState == "beyond"
        && cases[2].horizonState == "lapsed" && cases[3].horizonState == "unknown";
  }

  /** The code does not check for a repeated member: this manifest is accepted although
      its two faults can co-occur and no edge arbitrates between them. */
  lemma RepeatedMemberHidesAMissingEdge()
    ensures var m := REPEATED_MEMBER;
            && Accepted(m)
            && m.ranks[0].id == "a" && m.ranks[1].id == "b"
            && !Exclusive(m, "a", "b") && ArbitrationEdge("a", "b") !in m.edges
            && !EdgesComplete(m)
  {
    var m := REPEATED_MEMBER;
    RepeatedMemberExcludesOnePair();
    RepeatedMemberCases();
    assert Ids(m) == ["a", "b"];
    assert m.groups[0].members == ["a", "a"];
    assert "b" !in m.groups[0].members;
  }
}
