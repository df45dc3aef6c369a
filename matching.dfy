/** `nearest_settlement`: a linear scan for the closest gazetteer entry,
    accepted only within MATCH_RADIUS_KM. */
module Matching {
  import opened Common

  const MatchRadiusKm: real := 1.5

  /** A settlement and its distance in kilometres from the photo. */
  datatype Match = Match(settlement: Settlement, km: real)

  function KmTo(p: Point, s: Settlement, dist: Distance): real
  {
    dist(p, Location(s))
  }

  /** The index the scan settles on: a minimum distance, the earliest of
      equal minima, since the scan replaces its best only on a strictly
      smaller distance. */
  function ArgMin(p: Point, gaz: seq<Settlement>, dist: Distance): (k: nat)
    requires |gaz| > 0
    ensures k < |gaz|
    ensures forall i | 0 <= i < |gaz| :: KmTo(p, gaz[k], dist) <= KmTo(p, gaz[i], dist)
    ensures forall i | 0 <= i < k :: KmTo(p, gaz[k], dist) < KmTo(p, gaz[i], dist)
  {
    if |gaz| == 1 then 0
    else
      var k := ArgMin(p, gaz[..|gaz| - 1], dist);
      if KmTo(p, gaz[|gaz| - 1], dist) < KmTo(p, gaz[k], dist) then |gaz| - 1 else k
  }

  /** The match the scan returns. */
  function Nearest(p: Point, gaz: seq<Settlement>, dist: Distance): (r: Option<Match>)
    ensures r.None? <==> forall i | 0 <= i < |gaz| :: KmTo(p, gaz[i], dist) > MatchRadiusKm
    ensures r.Some? ==> r.value.km <= MatchRadiusKm
    ensures r.Some? ==> exists k | 0 <= k < |gaz| ::
      && r.value.settlement == gaz[k]
      && r.value.km == KmTo(p, gaz[k], dist)
      && (forall i | 0 <= i < |gaz| :: r.value.km <= KmTo(p, gaz[i], dist))
      && (forall i | 0 <= i < k :: r.value.km < KmTo(p, gaz[i], dist))
  {
    if |gaz| == 0 then None
    else
      var k := ArgMin(p, gaz, dist);
      var d := KmTo(p, gaz[k], dist);
      if d <= MatchRadiusKm then Some(Match(gaz[k], d)) else None
  }

  /** `nearest_settlement`. `best.None?` stands for the initial infinite
      best distance, which every distance undercuts. */
  method NearestSettlement(p: Point, gaz: seq<Settlement>, dist: Distance) returns (r: Option<Match>)
    ensures r == Nearest(p, gaz, dist)
  {
    var best: Option<Settlement> := None;
    var bestDist: real := 0.0;
    ghost var bestIdx: nat := 0;
    for i := 0 to |gaz|
      invariant best.None? <==> i == 0
      invariant i > 0 ==> (bestIdx == ArgMin(p, gaz[..i], dist) &&
        best == Some(gaz[bestIdx]) && bestDist == KmTo(p, gaz[bestIdx], dist))
    {
      var d := dist(p, Location(gaz[i]));
      assert gaz[..i + 1][..i] == gaz[..i];
      if best.None? || d < bestDist {
        best, bestDist := Some(gaz[i]), d;
        bestIdx := i;
      }
    }
    assert gaz[..|gaz|] == gaz;
    if best.Some? && bestDist <= MatchRadiusKm {
      r := Some(Match(best.value, bestDist));
    } else {
      r := None;
    }
  }

  /** A point at zero distance from a settlement, with no earlier settlement
      at zero and no negative distances, matches it with distance 0. */
  lemma ZeroDistanceMatches(p: Point, gaz: seq<Settlement>, k: nat, dist: Distance)
    requires k < |gaz| && KmTo(p, gaz[k], dist) == 0.0
    requires forall i | 0 <= i < |gaz| :: KmTo(p, gaz[i], dist) >= 0.0
    requires forall i | 0 <= i < k :: KmTo(p, gaz[i], dist) > 0.0
    ensures Nearest(p, gaz, dist) == Some(Match(gaz[k], 0.0))
  {
  }

  /** Two settlements at the same distance: the earlier one in gazetteer order wins. */
  lemma TieGoesToEarlier(p: Point, a: Settlement, b: Settlement, dist: Distance)
    requires KmTo(p, a, dist) == KmTo(p, b, dist) <= MatchRadiusKm
    ensures Nearest(p, [a, b], dist) == Some(Match(a, KmTo(p, a, dist)))
  {
  }
}
