/** The rank comparator of src/cross_surface.rs and the canary that proves it can fail. */
module FaultRanks {
  import opened Wrappers

  const RED := "red"
  const YELLOW := "yellow"
  const PLAIN := "plain"
  const GREEN := "green"
  const DIM := "dim"

  type u8 = x: nat | x < 256

  datatype FaultRank = FaultRank(rank: u8, id: string, severity: string)
  datatype ObservedFault = ObservedFault(id: string, severity: string)

  /** One entry of the comparator's report, with the values its prose quotes. */
  datatype Finding =
    | NothingRanked
    | CountDiffers(pinnedCount: nat, reportedCount: nat)
    | Missing(rank: u8, id: string)
    | OrderDiffers(rank: u8, pinnedId: string, rankedId: string)
    | BandDiffers(rank: u8, id: string, pinnedBand: string, shownBand: string)
    | Unpinned(id: string)

  /** The same ids and bands, position by position, and at least one of them. */
  ghost predicate Conforms(expected: seq<FaultRank>, observed: seq<ObservedFault>) {
    && observed != []
    && |observed| == |expected|
    && forall i :: 0 <= i < |expected| ==> observed[i] == ObservedFault(expected[i].id, expected[i].severity)
  }

  /** Whether the two sequences really disagree in the way the finding says. */
  ghost predicate Disagreement(expected: seq<FaultRank>, observed: seq<ObservedFault>, f: Finding) {
    match f
    case NothingRanked => observed == []
    case CountDiffers(pinnedCount, reportedCount) =>
      observed != [] && pinnedCount == |expected| && reportedCount == |observed| && pinnedCount != reportedCount
    case Missing(rank, id) =>
      observed != [] &&
      exists i :: |observed| <= i < |expected| && expected[i].rank == rank && expected[i].id == id
    case OrderDiffers(rank, pinned, ranked) =>
      exists i :: && 0 <= i < |expected| && i < |observed| && expected[i].rank == rank
                  && expected[i].id == pinned && observed[i].id == ranked && pinned != ranked
    case BandDiffers(rank, id, pinnedBand, shownBand) =>
      exists i :: && 0 <= i < |expected| && i < |observed| && expected[i].rank == rank
                  && observed[i].id == id && expected[i].severity == pinnedBand
                  && observed[i].severity == shownBand && pinnedBand != shownBand
    case Unpinned(id) =>
      exists i :: |expected| <= i < |observed| && observed[i].id == id
  }

  // --- the report ---

  ghost function AtPosition(expected: seq<FaultRank>, observed: seq<ObservedFault>, i: nat): seq<Finding>
    requires i < |expected|
  {
    var e := expected[i];
    if i >= |observed| then [Missing(e.rank, e.id)]
    else
      var o := observed[i];
      (if e.id != o.id then [OrderDiffers(e.rank, e.id, o.id)] else [])
      + (if e.severity != o.severity then [BandDiffers(e.rank, o.id, e.severity, o.severity)] else [])
  }

  ghost function Parts(expected: seq<FaultRank>, observed: seq<ObservedFault>): seq<seq<Finding>> {
    seq(|expected|, i requires 0 <= i < |expected| => AtPosition(expected, observed, i))
  }

  ghost function Flat(parts: seq<seq<Finding>>): seq<Finding> {
    if parts == [] then [] else Flat(parts[..|parts| - 1]) + parts[|parts| - 1]
  }

  ghost function Extras(observed: seq<ObservedFault>, from: nat, to: nat): seq<Finding>
    requires to <= |observed|
  {
    if to <= from then [] else Extras(observed, from, to - 1) + [Unpinned(observed[to - 1].id)]
  }

  ghost function CountFinding(expected: seq<FaultRank>, observed: seq<ObservedFault>): seq<Finding> {
    if |expected| != |observed| then [CountDiffers(|expected|, |observed|)] else []
  }

  ghost function Divergences(expected: seq<FaultRank>, observed: seq<ObservedFault>): seq<Finding> {
    if observed == [] then [NothingRanked]
    else
      CountFinding(expected, observed)
      + Flat(Parts(expected, observed))
      + Extras(observed, |expected|, |observed|)
  }

  method RankDivergences(expected: seq<FaultRank>, observed: seq<ObservedFault>)
    returns (findings: seq<Finding>)
    ensures findings == Divergences(expected, observed)
    ensures findings == [] <==> Conforms(expected, observed)
  {
    SilentExactlyWhenConforming(expected, observed);
    if observed == [] {
      return [NothingRanked];
    }
    findings := [];
    if |expected| != |observed| {
      findings := [CountDiffers(|expected|, |observed|)];
    }
    assert findings == CountFinding(expected, observed);
    var positional := ComparePositions(expected, observed);
    var extras := ReportExtras(expected, observed);
    findings := findings + positional + extras;
  }

  /** The walk over the pinned positions. */
  method ComparePositions(expected: seq<FaultRank>, observed: seq<ObservedFault>)
    returns (findings: seq<Finding>)
    ensures findings == Flat(Parts(expected, observed))
  {
    ghost var parts := Parts(expected, observed);
    findings := [];
    for index := 0 to |expected|
      invariant findings == Flat(parts[..index])
    {
      assert parts[..index + 1][..index] == parts[..index] && parts[index] == AtPosition(expected, observed, index);
      var pinned := expected[index];
      if index >= |observed| {
        findings := findings + [Missing(pinned.rank, pinned.id)];
        continue;
      }
      ghost var before := findings;
      var actual := observed[index];
      if pinned.id != actual.id {
        findings := findings + [OrderDiffers(pinned.rank, pinned.id, actual.id)];
      }
      if pinned.severity != actual.severity {
        findings := findings + [BandDiffers(pinned.rank, actual.id, pinned.severity, actual.severity)];
      }
      assert findings == before + AtPosition(expected, observed, index);
    }
    assert parts[..|expected|] == parts;
  }

  /** The observed faults past the end of the pinned list. */
  method ReportExtras(expected: seq<FaultRank>, observed: seq<ObservedFault>)
    returns (findings: seq<Finding>)
    ensures findings == Extras(observed, |expected|, |observed|)
  {
    findings := [];
    var extra := |expected|;
    while extra < |observed|
      invariant extra <= |observed| ==> findings == Extras(observed, |expected|, extra)
      invariant extra > |observed| ==> extra == |expected| && findings == []
    {
      findings := findings + [Unpinned(observed[extra].id)];
      extra := extra + 1;
    }
  }

  ghost predicate ReportedAt(expected: seq<FaultRank>, observed: seq<ObservedFault>, i: nat, f: Finding)
    requires i < |expected|
  {
    f in AtPosition(expected, observed, i)
  }

  lemma AtPositionReports(expected: seq<FaultRank>, observed: seq<ObservedFault>, i: nat, f: Finding)
    requires i < |expected|
    ensures ReportedAt(expected, observed, i, f) <==>
            var e := expected[i];
            if i >= |observed| then f == Missing(e.rank, e.id)
            else
              var o := observed[i];
              || (e.id != o.id && f == OrderDiffers(e.rank, e.id, o.id))
              || (e.severity != o.severity && f == BandDiffers(e.rank, o.id, e.severity, o.severity))
  {
  }

  lemma {:induction false} PartIsInFlat(parts: seq<seq<Finding>>, i: nat, f: Finding)
    requires i < |parts| && f in parts[i]
    ensures f in Flat(parts)
  {
    if i < |parts| - 1 { PartIsInFlat(parts[..|parts| - 1], i, f); }
  }

  lemma {:induction false} FlatIsInSomePart(parts: seq<seq<Finding>>, f: Finding) returns (i: nat)
    requires f in Flat(parts)
    ensures i < |parts| && f in parts[i]
  {
    var n := |parts| - 1;
    if f in parts[n] {
      i := n;
    } else {
      i := FlatIsInSomePart(parts[..n], f);
    }
  }

  /** The walk reports what some position reports. */
  lemma WalkReports(expected: seq<FaultRank>, observed: seq<ObservedFault>, f: Finding)
    ensures f in Flat(Parts(expected, observed)) <==>
            exists i: nat :: i < |expected| && ReportedAt(expected, observed, i, f)
  {
    var parts := Parts(expected, observed);
    if i: nat :| i < |expected| && ReportedAt(expected, observed, i, f) {
      PartIsInFlat(parts, i, f);
    }
    if f in Flat(parts) {
      var i := FlatIsInSomePart(parts, f);
      assert ReportedAt(expected, observed, i, f);
    }
  }

  lemma {:induction false} ExtrasReport(observed: seq<ObservedFault>, from: nat, to: nat, f: Finding)
    requires to <= |observed|
    ensures f in Extras(observed, from, to) <==>
            f.Unpinned? && exists i :: from <= i < to && observed[i].id == f.id
  {
    if from < to {
      ExtrasReport(observed, from, to - 1, f);
    }
  }

  /** The walk reports the disagreements that lie at a pinned position. */
  lemma WalkDisagrees(expected: seq<FaultRank>, observed: seq<ObservedFault>, f: Finding)
    requires observed != []
    ensures f in Flat(Parts(expected, observed)) <==>
            (f.Missing? || f.OrderDiffers? || f.BandDiffers?) && Disagreement(expected, observed, f)
  {
    WalkReports(expected, observed, f);
    forall i: nat | i < |expected|
      ensures ReportedAt(expected, observed, i, f) <==>
              || (i >= |observed| && f == Missing(expected[i].rank, expected[i].id))
              || (i < |observed| && expected[i].id != observed[i].id
                  && f == OrderDiffers(expected[i].rank, expected[i].id, observed[i].id))
              || (i < |observed| && expected[i].severity != observed[i].severity
                  && f == BandDiffers(expected[i].rank, observed[i].id, expected[i].severity, observed[i].severity))
    {
      AtPositionReports(expected, observed, i, f);
    }
  }

  lemma InThree(a: seq<Finding>, b: seq<Finding>, c: seq<Finding>, f: Finding)
    ensures f in a + b + c <==> f in a || f in b || f in c
  {
  }

  /** Every finding names a real disagreement, and every disagreement is reported. */
  lemma ReportsExactlyTheDisagreements(expected: seq<FaultRank>, observed: seq<ObservedFault>, f: Finding)
    ensures f in Divergences(expected, observed) <==> Disagreement(expected, observed, f)
  {
    if observed != [] {
      WalkDisagrees(expected, observed, f);
      ExtrasReport(observed, |expected|, |observed|, f);
      InThree(CountFinding(expected, observed), Flat(Parts(expected, observed)),
              Extras(observed, |expected|, |observed|), f);
    }
  }

  /** The report is empty exactly when the observation conforms. */
  lemma SilentExactlyWhenConforming(expected: seq<FaultRank>, observed: seq<ObservedFault>)
    ensures Divergences(expected, observed) == [] <==> Conforms(expected, observed)
  {
    var all := Divergences(expected, observed);
    if all != [] {
      ReportsExactlyTheDisagreements(expected, observed, all[0]);
      assert all[0] in all;
    } else if !Conforms(expected, observed) {
      if observed != [] && |observed| == |expected| {
        var i :| 0 <= i < |expected| && observed[i] != ObservedFault(expected[i].id, expected[i].severity);
        var e, o := expected[i], observed[i];
        ReportsExactlyTheDisagreements(expected, observed, OrderDiffers(e.rank, e.id, o.id));
        ReportsExactlyTheDisagreements(expected, observed, BandDiffers(e.rank, o.id, e.severity, o.severity));
      }
    }
  }

  // --- the canary ---

  datatype Mutation = InvertWorstAndMilder | FlipASeverityBand | DropARank | DuplicateARank

  const RANK_MUTATIONS: seq<Mutation> :=
    [InvertWorstAndMilder, FlipASeverityBand, DropARank, DuplicateARank]

  /** Position of the first fault that is not red, or the length. */
  function FirstNotRed(observed: seq<ObservedFault>): (at: nat)
    ensures at <= |observed|
    ensures forall i :: 0 <= i < at ==> observed[i].severity == RED
    ensures at < |observed| ==> observed[at].severity != RED
  {
    if observed == [] || observed[0].severity != RED then 0 else 1 + FirstNotRed(observed[1..])
  }

  /** Corrupt the observation, or `None` when it has no such shape to corrupt. */
  function Apply(mutation: Mutation, observed: seq<ObservedFault>): Option<seq<ObservedFault>> {
    var n := |observed|;
    match mutation
    case InvertWorstAndMilder =>
      if n >= 2 then Some(observed[0 := observed[n - 1]][n - 1 := observed[0]]) else None
    case FlipASeverityBand =>
      var at := FirstNotRed(observed);
      if at < n then Some(observed[at := observed[at].(severity := RED)]) else None
    case DropARank =>
      if n >= 2 then Some(observed[..n / 2] + observed[n / 2 + 1..]) else None
    case DuplicateARank =>
      if n >= 1 then Some(observed[..n / 2] + [observed[n / 2]] + observed[n / 2..]) else None
  }

  // --- what each corruption does ---

  /** The first and the last fault change places. */
  lemma InversionSwapsTheEnds(first: ObservedFault, between: seq<ObservedFault>, last: ObservedFault)
    ensures Apply(InvertWorstAndMilder, [first] + between + [last]) == Some([last] + between + [first])
  {
    var observed := [first] + between + [last];
    var n := |observed|;
    assert observed[0] == first && observed[n - 1] == last;
    assert observed[0 := observed[n - 1]][n - 1 := observed[0]] == [last] + between + [first];
  }

  /** One fault turns red: the first that is not. */
  lemma FlipReddensTheFirst(before: seq<ObservedFault>, fault: ObservedFault, after: seq<ObservedFault>)
    requires (forall b :: b in before ==> b.severity == "red") && fault.severity != "red"
    ensures Apply(FlipASeverityBand, before + [fault] + after)
         == Some(before + [ObservedFault(fault.id, "red")] + after)
  {
    var observed := before + [fault] + after;
    var at := FirstNotRed(observed);
    assert observed[|before|] == fault;
    assert at < |before| ==> observed[at] in before;
    assert observed[at := observed[at].(severity := RED)] == before + [ObservedFault(fault.id, "red")] + after;
  }

  /** One fault in the middle goes away, or comes twice. */
  lemma DropAndDuplicateTheMiddle(before: seq<ObservedFault>, fault: ObservedFault, after: seq<ObservedFault>)
    requires |after| <= |before| <= |after| + 1
    ensures before != [] ==> Apply(DropARank, before + [fault] + after) == Some(before + after)
    ensures Apply(DuplicateARank, before + [fault] + after) == Some(before + [fault] + [fault] + after)
  {
    var observed := before + [fault] + after;
    var middle := |observed| / 2;
    assert middle == |before|;
    assert observed[..middle] == before && observed[middle..] == [fault] + after && observed[middle + 1..] == after;
    assert before + [fault] + ([fault] + after) == before + [fault] + [fault] + after;
  }

  /** The observations that have no such shape to corrupt. */
  lemma NothingToCorruptExactlyWhen(observed: seq<ObservedFault>)
    ensures Apply(InvertWorstAndMilder, observed).None? <==> |observed| < 2
    ensures Apply(FlipASeverityBand, observed).None? <==> forall o :: o in observed ==> o.severity == "red"
    ensures Apply(DropARank, observed).None? <==> |observed| < 2
    ensures Apply(DuplicateARank, observed).None? <==> observed == []
  {
    var at := FirstNotRed(observed);
    assert at < |observed| ==> observed[at] in observed;
  }

  /** Against an expectation the clean observation meets, the comparator catches every
      other sequence whatever: a corruption goes unreported only if it changed nothing. */
  lemma AnyChangeIsCaught(expected: seq<FaultRank>, clean: seq<ObservedFault>, mutated: seq<ObservedFault>)
    requires Conforms(expected, clean)
    ensures Divergences(expected, mutated) != [] <==> mutated != clean
  {
    SilentExactlyWhenConforming(expected, mutated);
  }

  ghost predicate CaughtBy(expected: seq<FaultRank>, observed: seq<ObservedFault>, mutation: Mutation) {
    var mutated := Apply(mutation, observed);
    mutated.Some? && mutated.value != observed && Divergences(expected, mutated.value) != []
  }

  /** At least two faults, the first and last of which differ, and not all red. */
  ghost predicate Corruptible(observed: seq<ObservedFault>) {
    && |observed| >= 2
    && observed[0] != observed[|observed| - 1]
    && exists i :: 0 <= i < |observed| && observed[i].severity != RED
  }

  /** One round of the canary's loop: apply the corruption and see whether it is reported. */
  method Catches(expected: seq<FaultRank>, observed: seq<ObservedFault>, mutation: Mutation)
    returns (caught: bool)
    ensures caught <==> CaughtBy(expected, observed, mutation)
  {
    var mutated := Apply(mutation, observed);
    if mutated.None? || mutated.value == observed { return false; }
    var findings := RankDivergences(expected, mutated.value);
    return findings != [];
  }

  /** The canary's loop. */
  method CatchesAll(expected: seq<FaultRank>, observed: seq<ObservedFault>) returns (all: bool)
    ensures all <==> forall k :: 0 <= k < |RANK_MUTATIONS| ==> CaughtBy(expected, observed, RANK_MUTATIONS[k])
  {
    for m := 0 to |RANK_MUTATIONS|
      invariant forall k :: 0 <= k < m ==> CaughtBy(expected, observed, RANK_MUTATIONS[k])
    {
      var caught := Catches(expected, observed, RANK_MUTATIONS[m]);
      if !caught { return false; }
    }
    return true;
  }

  /** `assert_canary`, returning whether it would have passed: exactly on a conforming,
      corruptible observation. */
  method AssertCanary(expected: seq<FaultRank>, observed: seq<ObservedFault>) returns (passed: bool)
    ensures passed <==> Conforms(expected, observed) && Corruptible(observed)
  {
    var clean := RankDivergences(expected, observed);
    if clean != [] { return false; }
    VocabularyCaughtExactlyWhenCorruptible(expected, observed);
    passed := CatchesAll(expected, observed);
  }

  lemma AllCaughtExactlyWhenCorruptible(expected: seq<FaultRank>, observed: seq<ObservedFault>)
    requires Conforms(expected, observed)
    ensures Corruptible(observed) <==> forall mutation :: CaughtBy(expected, observed, mutation)
  {
    if Corruptible(observed) {
      forall mutation ensures CaughtBy(expected, observed, mutation) {
        CorruptibleIsCaught(expected, observed, mutation);
      }
    } else {
      IncorruptibleIsMissed(expected, observed);
    }
  }

  /** Where the corruption stands in the vocabulary. */
  function PlaceOf(mutation: Mutation): (k: nat)
    ensures k < |RANK_MUTATIONS| && RANK_MUTATIONS[k] == mutation
  {
    match mutation
    case InvertWorstAndMilder => 0
    case FlipASeverityBand => 1
    case DropARank => 2
    case DuplicateARank => 3
  }

  lemma VocabularyCaughtExactlyWhenCorruptible(expected: seq<FaultRank>, observed: seq<ObservedFault>)
    requires Conforms(expected, observed)
    ensures Corruptible(observed) <==>
            forall k :: 0 <= k < |RANK_MUTATIONS| ==> CaughtBy(expected, observed, RANK_MUTATIONS[k])
  {
    AllCaughtExactlyWhenCorruptible(expected, observed);
    if forall k :: 0 <= k < |RANK_MUTATIONS| ==> CaughtBy(expected, observed, RANK_MUTATIONS[k]) {
      forall mutation ensures CaughtBy(expected, observed, mutation) {
        assert RANK_MUTATIONS[PlaceOf(mutation)] == mutation;
      }
    }
  }

  lemma CorruptibleIsCaught(expected: seq<FaultRank>, observed: seq<ObservedFault>, mutation: Mutation)
    requires Conforms(expected, observed) && Corruptible(observed)
    ensures CaughtBy(expected, observed, mutation)
  {
    match mutation {
      case InvertWorstAndMilder => InversionCaughtExactlyWhen(expected, observed);
      case FlipASeverityBand => FlipCaughtExactlyWhen(expected, observed);
      case DropARank => DropCaughtExactlyWhen(expected, observed);
      case DuplicateARank => DuplicateIsCaught(expected, observed);
    }
  }

  /** The inversion misses when the first and the last fault are the same or one; the flip
      misses when every fault is red. */
  lemma IncorruptibleIsMissed(expected: seq<FaultRank>, observed: seq<ObservedFault>)
    requires Conforms(expected, observed) && !Corruptible(observed)
    ensures |observed| < 2 || observed[0] == observed[|observed| - 1] ==>
              !CaughtBy(expected, observed, InvertWorstAndMilder)
    ensures (forall i :: 0 <= i < |observed| ==> observed[i].severity == RED) ==>
              !CaughtBy(expected, observed, FlipASeverityBand)
    ensures exists mutation :: !CaughtBy(expected, observed, mutation)
  {
    InversionCaughtExactlyWhen(expected, observed);
    FlipCaughtExactlyWhen(expected, observed);
    assert !CaughtBy(expected, observed, InvertWorstAndMilder) || !CaughtBy(expected, observed, FlipASeverityBand);
  }

  /** When each of the four corruptions applies, changes the observation and is caught. */
  lemma MutationsCaughtExactlyWhen(expected: seq<FaultRank>, observed: seq<ObservedFault>)
    requires Conforms(expected, observed)
    ensures CaughtBy(expected, observed, InvertWorstAndMilder) <==>
            |observed| >= 2 && observed[0] != observed[|observed| - 1]
    ensures CaughtBy(expected, observed, FlipASeverityBand) <==>
            exists i :: 0 <= i < |observed| && observed[i].severity != RED
    ensures CaughtBy(expected, observed, DropARank) <==> |observed| >= 2
    ensures CaughtBy(expected, observed, DuplicateARank)
  {
    InversionCaughtExactlyWhen(expected, observed);
    FlipCaughtExactlyWhen(expected, observed);
    DropCaughtExactlyWhen(expected, observed);
    DuplicateIsCaught(expected, observed);
  }

  /** A corruption that applies is caught exactly when it changes the observation. */
  lemma CaughtExactlyWhenChanged(expected: seq<FaultRank>, observed: seq<ObservedFault>, mutation: Mutation)
    requires Conforms(expected, observed) && Apply(mutation, observed).Some?
    ensures CaughtBy(expected, observed, mutation) <==> Apply(mutation, observed).value != observed
  {
    AnyChangeIsCaught(expected, observed, Apply(mutation, observed).value);
  }

  lemma InversionCaughtExactlyWhen(expected: seq<FaultRank>, observed: seq<ObservedFault>)
    requires Conforms(expected, observed)
    ensures CaughtBy(expected, observed, InvertWorstAndMilder) <==>
            |observed| >= 2 && observed[0] != observed[|observed| - 1]
  {
    if |observed| >= 2 {
      CaughtExactlyWhenChanged(expected, observed, InvertWorstAndMilder);
      var swapped := Apply(InvertWorstAndMilder, observed).value;
      if observed[0] != observed[|observed| - 1] {
        assert swapped[0] != observed[0];
      } else {
        assert swapped == observed;
      }
    }
  }

  lemma FlipCaughtExactlyWhen(expected: seq<FaultRank>, observed: seq<ObservedFault>)
    requires Conforms(expected, observed)
    ensures CaughtBy(expected, observed, FlipASeverityBand) <==>
            exists i :: 0 <= i < |observed| && observed[i].severity != RED
  {
    var at := FirstNotRed(observed);
    if at < |observed| {
      CaughtExactlyWhenChanged(expected, observed, FlipASeverityBand);
      assert Apply(FlipASeverityBand, observed).value[at] != observed[at];
    }
  }

  lemma DropCaughtExactlyWhen(expected: seq<FaultRank>, observed: seq<ObservedFault>)
    requires Conforms(expected, observed)
    ensures CaughtBy(expected, observed, DropARank) <==> |observed| >= 2
  {
    if |observed| >= 2 {
      CaughtExactlyWhenChanged(expected, observed, DropARank);
      assert |Apply(DropARank, observed).value| == |observed| - 1;
    }
  }

  lemma DuplicateIsCaught(expected: seq<FaultRank>, observed: seq<ObservedFault>)
    requires Conforms(expected, observed)
    ensures CaughtBy(expected, observed, DuplicateARank)
  {
    CaughtExactlyWhenChanged(expected, observed, DuplicateARank);
    assert |Apply(DuplicateARank, observed).value| == |observed| + 1;
  }

  /** Distinct ids suffice for the inversion: with two faults and one that is not red,
      every corruption is caught. */
  lemma DistinctIdsArmTheCanary(expected: seq<FaultRank>, observed: seq<ObservedFault>, mutation: Mutation)
    requires Conforms(expected, observed) && |observed| >= 2
    requires forall i, j :: 0 <= i < j < |expected| ==> expected[i].id != expected[j].id
    requires exists i :: 0 <= i < |observed| && observed[i].severity != RED
    ensures CaughtBy(expected, observed, mutation)
  {
    MutationsCaughtExactlyWhen(expected, observed);
    assert expected[0].id != expected[|expected| - 1].id;
    assert observed[0] == ObservedFault(expected[0].id, expected[0].severity);
  }
}
