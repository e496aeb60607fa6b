/** The manifest restricted to the faults one snapshot can hold, of src/cross_surface.rs. */
module Projection {
  import opened Wrappers
  import opened FaultRanks
  import opened Manifest

  /** The ranks whose id is present, in the order they have. */
  ghost function Restricted(ranks: seq<FaultRank>, present: seq<string>): seq<FaultRank> {
    if ranks == [] then []
    else
      var last := ranks[|ranks| - 1];
      Restricted(ranks[..|ranks| - 1], present) + (if last.id in present then [last] else [])
  }

  ghost predicate Ascending(ranks: seq<FaultRank>) {
    forall i, j :: 0 <= i < j < |ranks| ==> ranks[i].rank < ranks[j].rank
  }

  /** `projection`; `None` where the source panics, on an id that the manifest does not rank. */
  method Project(m: Contract, present: seq<string>) returns (r: Option<seq<FaultRank>>)
    ensures r.Some? <==> forall id :: id in present ==> id in Ids(m)
    ensures r.Some? ==> r.value == Restricted(m.ranks, present)
  {
    for k := 0 to |present|
      invariant forall i :: 0 <= i < k ==> present[i] in Ids(m)
    {
      var ranked := RankOf(m, present[k]);
      if ranked.None? {
        assert present[k] !in Ids(m);
        return None;
      }
      assert Ids(m)[ranked.value] == present[k];
    }
    var kept: seq<FaultRank> := [];
    for i := 0 to |m.ranks|
      invariant kept == Restricted(m.ranks[..i], present)
    {
      assert m.ranks[..i + 1][..i] == m.ranks[..i];
      if m.ranks[i].id in present { kept := kept + [m.ranks[i]]; }
    }
    assert m.ranks[..|m.ranks|] == m.ranks;
    return Some(kept);
  }

  lemma {:induction false} RestrictedMembers(ranks: seq<FaultRank>, present: seq<string>, f: FaultRank)
    ensures f in Restricted(ranks, present) <==> f in ranks && f.id in present
  {
    if ranks != [] {
      var n := |ranks| - 1;
      RestrictedMembers(ranks[..n], present, f);
      assert ranks == ranks[..n] + [ranks[n]];
    }
  }

  lemma {:induction false} RestrictedAscends(ranks: seq<FaultRank>, present: seq<string>)
    requires Ascending(ranks)
    ensures Ascending(Restricted(ranks, present))
  {
    if ranks != [] {
      var n := |ranks| - 1;
      RestrictedAscends(ranks[..n], present);
      var earlier := Restricted(ranks[..n], present);
      forall i | 0 <= i < |earlier| ensures earlier[i].rank < ranks[n].rank {
        RestrictedMembers(ranks[..n], present, earlier[i]);
      }
    }
  }

  /** The projection of an accepted manifest is in rank order, with the original rank numbers,
      and names exactly the faults present, each of them once. */
  lemma ProjectionIsTheRankedPresence(m: Contract, present: seq<string>)
    requires Accepted(m) && forall id :: id in present ==> id in Ids(m)
    ensures var r := Restricted(m.ranks, present);
            && Ascending(r)
            && (forall f :: f in r <==> f in m.ranks && f.id in present)
            && (forall id :: id in present ==> exists i :: 0 <= i < |r| && r[i].id == id)
            && (forall i, j :: 0 <= i < j < |r| ==> r[i].id != r[j].id)
  {
    var r := Restricted(m.ranks, present);
    RestrictedAscends(m.ranks, present);
    forall f ensures f in r <==> f in m.ranks && f.id in present { RestrictedMembers(m.ranks, present, f); }
    forall id | id in present ensures exists i :: 0 <= i < |r| && r[i].id == id {
      var k :| 0 <= k < |m.ranks| && Ids(m)[k] == id;
      assert m.ranks[k] in r;
    }
    forall i, j | 0 <= i < j < |r| ensures r[i].id != r[j].id {
      assert r[i] in m.ranks && r[j] in m.ranks;
      var k, l :| 0 <= k < |m.ranks| && 0 <= l < |m.ranks| && m.ranks[k] == r[i] && m.ranks[l] == r[j];
      assert Ids(m)[k] == r[i].id && Ids(m)[l] == r[j].id && r[i].rank < r[j].rank;
    }
  }

  /** A surface is silent against the projection exactly when it reports, in rank order, the
      faults that are present, at the bands the manifest gives them. */
  lemma SilentAgainstProjection(m: Contract, present: seq<string>, observed: seq<ObservedFault>)
    requires Accepted(m) && forall id :: id in present ==> id in Ids(m)
    ensures var r := Restricted(m.ranks, present);
            Divergences(r, observed) == [] <==>
              && present != [] && |observed| == |r|
              && forall i :: 0 <= i < |r| ==> observed[i] == ObservedFault(r[i].id, r[i].severity)
  {
    var r := Restricted(m.ranks, present);
    SilentExactlyWhenConforming(r, observed);
    ProjectionIsTheRankedPresence(m, present);
    if present != [] {
      assert present[0] in present;
    } else if r != [] {
      assert r[0] in r;
    }
  }
}
