/** `deduplicate`: greedy first-member clustering of photos within
    DEDUP_RADIUS_M, then one latest photo per cluster. */
module Dedup {
  import opened Common

  const DedupRadiusM: real := 50.0

  /** `geodesic(...).meters`, from the distance in kilometres. */
  function Meters(km: real): real
  {
    km * 1000.0
  }

  /** The membership test: photo `p` lies within the radius of cluster head `rep`. */
  predicate Near(p: Photo, rep: Photo, dist: Distance)
  {
    Meters(dist(p.coords, rep.coords)) <= DedupRadiusM
  }

  predicate AllNonEmpty(clusters: seq<seq<Photo>>)
  {
    forall i | 0 <= i < |clusters| :: |clusters[i]| > 0
  }

  /** The first cluster, in creation order, whose first member is near `p`;
      `|clusters|` when there is none. */
  function FirstNear(clusters: seq<seq<Photo>>, p: Photo, dist: Distance): (k: nat)
    requires AllNonEmpty(clusters)
    ensures k <= |clusters|
    ensures k < |clusters| ==> Near(p, clusters[k][0], dist)
    ensures forall i | 0 <= i < k :: !Near(p, clusters[i][0], dist)
  {
    if clusters == [] then 0
    else if Near(p, clusters[0][0], dist) then 0
    else 1 + FirstNear(clusters[1..], p, dist)
  }

  /** One step of the outer loop: join the first near cluster or open a new one. */
  function Place(clusters: seq<seq<Photo>>, p: Photo, dist: Distance): (r: seq<seq<Photo>>)
    requires AllNonEmpty(clusters)
  {
    var k := FirstNear(clusters, p, dist);
    if k < |clusters| then clusters[k := clusters[k] + [p]] else clusters + [[p]]
  }

  /** The clusters built from `photos`, in creation order. */
  function Clusters(photos: seq<Photo>, dist: Distance): (r: seq<seq<Photo>>)
    ensures AllNonEmpty(r)
    ensures |r| <= |photos|
  {
    if photos == [] then []
    else
      var prior := Clusters(photos[..|photos| - 1], dist);
      Place(prior, photos[|photos| - 1], dist)
  }

  /** The clustering invariant: every cluster is non-empty; every later
      member is near its cluster's head and near no earlier cluster's head;
      every head is near no earlier head. */
  ghost predicate WellFormed(clusters: seq<seq<Photo>>, dist: Distance)
  {
    && AllNonEmpty(clusters)
    && (forall i, j | 0 <= j < i < |clusters| :: !Near(clusters[i][0], clusters[j][0], dist))
    && (forall i, m | 0 <= i < |clusters| && 0 < m < |clusters[i]| :: Near(clusters[i][m], clusters[i][0], dist))
    && (forall i, m, j | 0 <= j < i < |clusters| && 0 <= m < |clusters[i]| ::
          !Near(clusters[i][m], clusters[j][0], dist))
  }

  lemma PlaceKeepsWellFormed(clusters: seq<seq<Photo>>, p: Photo, dist: Distance)
    requires WellFormed(clusters, dist)
    ensures WellFormed(Place(clusters, p, dist), dist)
  {
  }

  /** Every clustering of a photo sequence satisfies the invariant. */
  lemma {:induction false} ClustersWellFormed(photos: seq<Photo>, dist: Distance)
    ensures WellFormed(Clusters(photos, dist), dist)
  {
    if photos != [] {
      ClustersWellFormed(photos[..|photos| - 1], dist);
      PlaceKeepsWellFormed(Clusters(photos[..|photos| - 1], dist), photos[|photos| - 1], dist);
    }
  }

  /** All members of all clusters, in cluster order. */
  function Flatten(clusters: seq<seq<Photo>>): seq<Photo>
  {
    if clusters == [] then [] else Flatten(clusters[..|clusters| - 1]) + clusters[|clusters| - 1]
  }

  lemma {:induction false} FlattenSplit(a: seq<seq<Photo>>, b: seq<seq<Photo>>)
    ensures Flatten(a + b) == Flatten(a) + Flatten(b)
  {
    if b != [] {
      assert (a + b)[..|a + b| - 1] == a + b[..|b| - 1];
      FlattenSplit(a, b[..|b| - 1]);
    } else {
      assert a + b == a;
    }
  }

  lemma PlaceAddsOnePhoto(clusters: seq<seq<Photo>>, p: Photo, dist: Distance)
    requires AllNonEmpty(clusters)
    ensures multiset(Flatten(Place(clusters, p, dist))) == multiset(Flatten(clusters)) + multiset{p}
  {
    var k := FirstNear(clusters, p, dist);
    if k < |clusters| {
      var r := Place(clusters, p, dist);
      assert clusters == clusters[..k] + [clusters[k]] + clusters[k + 1..];
      assert r == clusters[..k] + [clusters[k] + [p]] + clusters[k + 1..];
      FlattenSplit(clusters[..k] + [clusters[k]], clusters[k + 1..]);
      FlattenSplit(clusters[..k], [clusters[k]]);
      FlattenSplit(clusters[..k] + [clusters[k] + [p]], clusters[k + 1..]);
      FlattenSplit(clusters[..k], [clusters[k] + [p]]);
      assert Flatten([clusters[k]]) == clusters[k] by { assert [clusters[k]][..0] == []; }
      assert Flatten([clusters[k] + [p]]) == clusters[k] + [p] by { assert [clusters[k] + [p]][..0] == []; }
    } else {
      assert (clusters + [[p]])[..|clusters|] == clusters;
    }
  }

  /** The clusters hold exactly the input photos: each photo lands in one
      cluster, so the cluster sizes add up to the input length. */
  lemma {:induction false} ClustersPartitionInput(photos: seq<Photo>, dist: Distance)
    ensures multiset(Flatten(Clusters(photos, dist))) == multiset(photos)
    ensures |Flatten(Clusters(photos, dist))| == |photos|
  {
    var f := Flatten(Clusters(photos, dist));
    if photos != [] {
      var init := photos[..|photos| - 1];
      var last := photos[|photos| - 1];
      ClustersPartitionInput(init, dist);
      assert Clusters(photos, dist) == Place(Clusters(init, dist), last, dist);
      PlaceAddsOnePhoto(Clusters(init, dist), last, dist);
      assert photos == init + [last];
      assert multiset(photos) == multiset(init) + multiset{last};
    } else {
      assert f == [];
    }
    assert |f| == |multiset(f)|;
  }

  /** `max(c, key=datetime)`: the first member with the latest capture time. */
  function LatestIndex(c: seq<Photo>): (k: nat)
    requires |c| > 0
    ensures k < |c|
    ensures forall i | 0 <= i < |c| :: c[i].taken <= c[k].taken
    ensures forall i | 0 <= i < k :: c[i].taken < c[k].taken
  {
    if |c| == 1 then 0
    else
      var k := LatestIndex(c[..|c| - 1]);
      if c[|c| - 1].taken > c[k].taken then |c| - 1 else k
  }

  /** The reduction of one cluster: its first member with the latest capture time. */
  function Latest(c: seq<Photo>): (p: Photo)
    requires |c| > 0
    ensures forall i | 0 <= i < |c| :: c[i].taken <= p.taken
    ensures exists m | 0 <= m < |c| :: p == c[m] && forall n | 0 <= n < m :: c[n].taken < p.taken
  {
    var k := LatestIndex(c);
    var p := c[k];
    assert 0 <= k < |c| && p == c[k] && forall n | 0 <= n < k :: c[n].taken < p.taken;
    p
  }

  /** One representative per cluster, in creation order. */
  function Representatives(clusters: seq<seq<Photo>>): (r: seq<Photo>)
    requires AllNonEmpty(clusters)
    ensures |r| == |clusters|
    ensures forall i | 0 <= i < |clusters| :: r[i] == Latest(clusters[i])
  {
    seq(|clusters|, i requires 0 <= i < |clusters| => Latest(clusters[i]))
  }

  /** `deduplicate`. */
  method Deduplicate(photos: seq<Photo>, dist: Distance) returns (reps: seq<Photo>)
    ensures reps == Representatives(Clusters(photos, dist))
    ensures |reps| <= |photos|
  {
    var clusters: seq<seq<Photo>> := [];
    for i := 0 to |photos|
      invariant clusters == Clusters(photos[..i], dist)
    {
      var photo := photos[i];
      assert photos[..i + 1][..i] == photos[..i];
      var placed := false;
      var j := 0;
      while j < |clusters|
        invariant 0 <= j <= |clusters|
        invariant clusters == Clusters(photos[..i], dist)
        invariant forall k | 0 <= k < j :: !Near(photo, clusters[k][0], dist)
      {
        var rep := clusters[j][0];
        if Meters(dist(photo.coords, rep.coords)) <= DedupRadiusM {
          clusters := clusters[j := clusters[j] + [photo]];
          placed := true;
          break;
        }
        j := j + 1;
      }
      if !placed {
        clusters := clusters + [[photo]];
      }
    }
    assert photos[..|photos|] == photos;
    reps := Representatives(clusters);
  }

  /** `c` is a subsequence of `s`: `idx` picks its members out of `s` at
      strictly increasing positions. */
  ghost predicate Embeds(idx: seq<nat>, c: seq<Photo>, s: seq<Photo>)
  {
    && |idx| == |c|
    && (forall t | 0 <= t < |idx| :: idx[t] < |s| && c[t] == s[idx[t]])
    && (forall t, u | 0 <= t < u < |idx| :: idx[t] < idx[u])
  }

  ghost predicate IsSubsequence(c: seq<Photo>, s: seq<Photo>)
  {
    exists idx :: Embeds(idx, c, s)
  }

  lemma PlaceKeepsOrder(clusters: seq<seq<Photo>>, init: seq<Photo>, p: Photo, dist: Distance)
    requires AllNonEmpty(clusters)
    requires forall c | 0 <= c < |clusters| :: IsSubsequence(clusters[c], init)
    ensures var r := Place(clusters, p, dist);
      forall c | 0 <= c < |r| :: IsSubsequence(r[c], init + [p])
  {
    var r := Place(clusters, p, dist);
    var k := FirstNear(clusters, p, dist);
    var s := init + [p];
    forall c | 0 <= c < |r|
      ensures IsSubsequence(r[c], s)
    {
      if c < |clusters| {
        var idx: seq<nat> :| Embeds(idx, clusters[c], init);
        assert Embeds(idx, clusters[c], s);
        if c == k {
          assert r[c] == clusters[c] + [p];
          assert Embeds(idx + [|init|], r[c], s);
        } else {
          assert r[c] == clusters[c];
        }
      } else {
        assert r[c] == [p];
        assert Embeds([|init|], r[c], s);
      }
    }
  }

  /** Each cluster keeps its members in input order: it is a subsequence of
      the input, so "earliest in the cluster" is "earliest in the input". */
  lemma {:induction false} ClustersKeepInputOrder(photos: seq<Photo>, dist: Distance)
    ensures forall c | 0 <= c < |Clusters(photos, dist)| :: IsSubsequence(Clusters(photos, dist)[c], photos)
  {
    if photos != [] {
      var init := photos[..|photos| - 1];
      ClustersKeepInputOrder(init, dist);
      PlaceKeepsOrder(Clusters(init, dist), init, photos[|photos| - 1], dist);
      assert init + [photos[|photos| - 1]] == photos;
    }
  }

  /** Photos all within the radius of the first one form a single cluster. */
  lemma {:induction false} OnePlaceOneCluster(photos: seq<Photo>, dist: Distance)
    requires |photos| > 0
    requires forall i | 1 <= i < |photos| :: Near(photos[i], photos[0], dist)
    ensures Clusters(photos, dist) == [photos]
  {
    var init := photos[..|photos| - 1];
    var last := photos[|photos| - 1];
    assert Clusters(photos, dist) == Place(Clusters(init, dist), last, dist);
    if |photos| > 1 {
      assert init[0] == photos[0];
      assert forall i | 1 <= i < |init| :: init[i] == photos[i];
      OnePlaceOneCluster(init, dist);
      assert FirstNear([init], last, dist) == 0;
      assert Place([init], last, dist) == [init + [last]];
      assert init + [last] == photos;
    } else {
      assert init == [];
      assert Place([], last, dist) == [[last]];
      assert [last] == photos;
    }
  }

  /** Such photos reduce to the latest of them. */
  lemma OnePlaceLatest(photos: seq<Photo>, dist: Distance)
    requires |photos| > 0
    requires forall i | 1 <= i < |photos| :: Near(photos[i], photos[0], dist)
    ensures Representatives(Clusters(photos, dist)) == [Latest(photos)]
  {
    OnePlaceOneCluster(photos, dist);
    var r := Representatives([photos]);
    assert |r| == 1 && r[0] == Latest(photos);
  }

  /** Three photos at one place, taken at increasing times, reduce to the last. */
  lemma LatestOfThree(a: Photo, b: Photo, c: Photo, dist: Distance)
    requires Near(b, a, dist) && Near(c, a, dist)
    requires a.taken < b.taken < c.taken
    ensures Representatives(Clusters([a, b, c], dist)) == [c]
  {
    OnePlaceLatest([a, b, c], dist);
  }

  /** A second photo more than the radius from the first is kept beside it. */
  lemma FarApartKeepsBoth(a: Photo, b: Photo, dist: Distance)
    requires !Near(b, a, dist)
    ensures Representatives(Clusters([a, b], dist)) == [a, b]
  {
  }
}
