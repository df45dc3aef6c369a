/** The matching and partition section of `build`: claim one settlement per
    deduplicated photo (first claim wins), list the unclaimed settlements
    with their distance from home, and sort that list by distance. */
module Resolver {
  import opened Common
  import opened Paths
  import opened Matching

  /** HOME_COORDS. */
  const Home: Point := Point(52.2355, 0.9014)

  /** A `visited` record of the dataset: the settlement's name, the photo's
      own coordinates, the web photo's path and the capture date or null. */
  datatype VisitedEntry = VisitedEntry(name: string, lat: real, lon: real, photo: string, date: Option<string>)

  /** An `unvisited` record: the settlement and its distance from home. */
  datatype UnvisitedEntry = UnvisitedEntry(name: string, lat: real, lon: real, distanceKm: real)

  /** `strftime("%Y-%m-%d")` on a capture time. */
  type DateFormat = Timestamp -> string

  /** The web photo's file name: the original stem with ".jpg". */
  function OutName(photo: Photo): string
  {
    Stem(photo.name) + ".jpg"
  }

  /** The `date` field: null exactly for the minimum sentinel. */
  function DateOf(t: Timestamp, fmt: DateFormat): (r: Option<string>)
    ensures r.None? <==> t == MinTimestamp
    ensures r.Some? ==> r.value == fmt(t)
  {
    if t != MinTimestamp then Some(fmt(t)) else None
  }

  function EntryFor(photo: Photo, name: string, fmt: DateFormat): VisitedEntry
  {
    VisitedEntry(name, photo.coords.lat, photo.coords.lon, "photos/" + OutName(photo), DateOf(photo.taken, fmt))
  }

  /** The name of the settlement a photo matches, if any. */
  function MatchedName(photo: Photo, gaz: seq<Settlement>, dist: Distance): Option<string>
  {
    match Nearest(photo.coords, gaz, dist)
    case None => None
    case Some(m) => Some(m.settlement.name)
  }

  /** A matched name is the name of a gazetteer settlement within the match radius. */
  lemma MatchedNameInGazetteer(photo: Photo, gaz: seq<Settlement>, dist: Distance)
    requires MatchedName(photo, gaz, dist).Some?
    ensures exists k | 0 <= k < |gaz| :: gaz[k].name == MatchedName(photo, gaz, dist).value &&
                                         KmTo(photo.coords, gaz[k], dist) <= MatchRadiusKm
  {
  }

  // ── Claims ──────────────────────────────────────────────────────────────

  /** The resolver's loop state: `visited_names` and `visited`. */
  datatype Claims = Claims(names: set<string>, visited: seq<VisitedEntry>)

  /** One iteration of the claim loop. */
  function ClaimStep(st: Claims, photo: Photo, gaz: seq<Settlement>, dist: Distance, fmt: DateFormat): Claims
  {
    match MatchedName(photo, gaz, dist)
    case None => st
    case Some(n) =>
      if n in st.names then st
      else Claims(st.names + {n}, st.visited + [EntryFor(photo, n, fmt)])
  }

  /** The loop state after processing `photos` in order. */
  function ClaimAll(photos: seq<Photo>, gaz: seq<Settlement>, dist: Distance, fmt: DateFormat): Claims
  {
    if photos == [] then Claims({}, [])
    else ClaimStep(ClaimAll(photos[..|photos| - 1], gaz, dist, fmt), photos[|photos| - 1], gaz, dist, fmt)
  }

  /** The names some photo of `photos` matches. */
  ghost function NamesMatched(photos: seq<Photo>, gaz: seq<Settlement>, dist: Distance): set<string>
  {
    if photos == [] then {}
    else
      var m := MatchedName(photos[|photos| - 1], gaz, dist);
      NamesMatched(photos[..|photos| - 1], gaz, dist) + (if m.Some? then {m.value} else {})
  }

  lemma {:induction false} NamesMatchedMembers(photos: seq<Photo>, gaz: seq<Settlement>, dist: Distance)
    ensures forall x :: x in NamesMatched(photos, gaz, dist) <==>
      exists j | 0 <= j < |photos| :: MatchedName(photos[j], gaz, dist) == Some(x)
  {
    if photos != [] {
      var init := photos[..|photos| - 1];
      NamesMatchedMembers(init, gaz, dist);
      assert forall j | 0 <= j < |init| :: init[j] == photos[j];
    }
  }

  lemma {:induction false} NamesMatchedHas(photos: seq<Photo>, j: nat, gaz: seq<Settlement>, dist: Distance)
    requires j < |photos| && MatchedName(photos[j], gaz, dist).Some?
    ensures MatchedName(photos[j], gaz, dist).value in NamesMatched(photos, gaz, dist)
  {
    if j < |photos| - 1 {
      NamesMatchedHas(photos[..|photos| - 1], j, gaz, dist);
    }
  }

  /** The names of a list of visited entries. */
  ghost function NameSet(v: seq<VisitedEntry>): (r: set<string>)
    ensures forall i | 0 <= i < |v| :: v[i].name in r
    ensures forall x | x in r :: exists i | 0 <= i < |v| :: v[i].name == x
  {
    if v == [] then {} else NameSet(v[..|v| - 1]) + {v[|v| - 1].name}
  }

  /** The set of visited names is the set of the entries' names, which are
      pairwise distinct: one entry per name. */
  ghost predicate ClaimsValid(st: Claims)
  {
    && (forall i, j | 0 <= i < j < |st.visited| :: st.visited[i].name != st.visited[j].name)
    && st.names == NameSet(st.visited)
    && |st.names| == |st.visited|
  }

  lemma ClaimStepKeepsValid(st: Claims, photo: Photo, gaz: seq<Settlement>, dist: Distance, fmt: DateFormat)
    requires ClaimsValid(st)
    ensures ClaimsValid(ClaimStep(st, photo, gaz, dist, fmt))
  {
    var m := MatchedName(photo, gaz, dist);
    if m.Some? && m.value !in st.names {
      var n := m.value;
      var v := st.visited + [EntryFor(photo, n, fmt)];
      assert v[..|v| - 1] == st.visited;
      assert NameSet(v) == st.names + {n};
      forall i, j | 0 <= i < j < |v|
        ensures v[i].name != v[j].name
      {
        if j == |v| - 1 {
          assert v[i].name in st.names;
        }
      }
    }
  }

  /** After any sequence of photos: the claim state is valid, and the
      claimed names are exactly the names some photo matched. */
  lemma {:induction false} ClaimAllValid(photos: seq<Photo>, gaz: seq<Settlement>, dist: Distance, fmt: DateFormat)
    ensures ClaimsValid(ClaimAll(photos, gaz, dist, fmt))
    ensures ClaimAll(photos, gaz, dist, fmt).names == NamesMatched(photos, gaz, dist)
  {
    if photos != [] {
      var init := photos[..|photos| - 1];
      ClaimAllValid(init, gaz, dist, fmt);
      ClaimStepKeepsValid(ClaimAll(init, gaz, dist, fmt), photos[|photos| - 1], gaz, dist, fmt);
    }
  }

  /** Every claimed name belongs to a gazetteer settlement. */
  lemma ClaimedNamesInGazetteer(photos: seq<Photo>, gaz: seq<Settlement>, dist: Distance, fmt: DateFormat)
    ensures ClaimAll(photos, gaz, dist, fmt).names <= GazNames(gaz)
  {
    ClaimAllValid(photos, gaz, dist, fmt);
    NamesMatchedMembers(photos, gaz, dist);
    GazNamesMembers(gaz);
    forall x | x in NamesMatched(photos, gaz, dist)
      ensures x in GazNames(gaz)
    {
      var j :| 0 <= j < |photos| && MatchedName(photos[j], gaz, dist) == Some(x);
      MatchedNameInGazetteer(photos[j], gaz, dist);
    }
  }

  /** Photo `j` is the first of `photos` to match settlement name `n`. */
  predicate FirstClaimant(photos: seq<Photo>, j: int, n: string, gaz: seq<Settlement>, dist: Distance)
  {
    && 0 <= j < |photos|
    && MatchedName(photos[j], gaz, dist) == Some(n)
    && forall i | 0 <= i < j :: MatchedName(photos[i], gaz, dist) != Some(n)
  }

  /** Entry `e` was built from the first photo to match its settlement. */
  ghost predicate FromFirstClaimant(photos: seq<Photo>, e: VisitedEntry, gaz: seq<Settlement>, dist: Distance, fmt: DateFormat)
  {
    exists j :: FirstClaimant(photos, j, e.name, gaz, dist) && e == EntryFor(photos[j], e.name, fmt)
  }

  lemma FirstClaimantInPrefix(photos: seq<Photo>, k: nat, j: int, n: string, gaz: seq<Settlement>, dist: Distance)
    requires k <= |photos|
    requires FirstClaimant(photos[..k], j, n, gaz, dist)
    ensures FirstClaimant(photos, j, n, gaz, dist) && photos[j] == photos[..k][j]
  {
  }

  /** First claim wins: each visited entry is built from the first photo,
      in processing order, that matched its settlement. */
  lemma {:induction false} EntriesComeFromFirstClaimants(photos: seq<Photo>, gaz: seq<Settlement>, dist: Distance, fmt: DateFormat)
    ensures forall i | 0 <= i < |ClaimAll(photos, gaz, dist, fmt).visited| ::
      FromFirstClaimant(photos, ClaimAll(photos, gaz, dist, fmt).visited[i], gaz, dist, fmt)
  {
    if photos != [] {
      var k := |photos| - 1;
      var init := photos[..k];
      var last := photos[k];
      EntriesComeFromFirstClaimants(init, gaz, dist, fmt);
      var st := ClaimAll(init, gaz, dist, fmt);
      var v := ClaimAll(photos, gaz, dist, fmt).visited;
      forall i | 0 <= i < |v|
        ensures FromFirstClaimant(photos, v[i], gaz, dist, fmt)
      {
        if i < |st.visited| {
          assert v[i] == st.visited[i];
          assert FromFirstClaimant(init, st.visited[i], gaz, dist, fmt);
          var j :| FirstClaimant(init, j, v[i].name, gaz, dist) && v[i] == EntryFor(init[j], v[i].name, fmt);
          FirstClaimantInPrefix(photos, k, j, v[i].name, gaz, dist);
        } else {
          assert ClaimAll(photos, gaz, dist, fmt) == ClaimStep(st, last, gaz, dist, fmt);
          NewClaimIsFirst(init, last, gaz, dist, fmt);
          assert forall j | 0 <= j < k :: init[j] == photos[j];
          assert FirstClaimant(photos, k, v[i].name, gaz, dist);
        }
      }
    }
  }

  /** The entry a photo adds is for a name no earlier photo matched. */
  lemma NewClaimIsFirst(init: seq<Photo>, p: Photo, gaz: seq<Settlement>, dist: Distance, fmt: DateFormat)
    requires |ClaimStep(ClaimAll(init, gaz, dist, fmt), p, gaz, dist, fmt).visited| > |ClaimAll(init, gaz, dist, fmt).visited|
    ensures MatchedName(p, gaz, dist).Some?
    ensures ClaimStep(ClaimAll(init, gaz, dist, fmt), p, gaz, dist, fmt).visited
            == ClaimAll(init, gaz, dist, fmt).visited + [EntryFor(p, MatchedName(p, gaz, dist).value, fmt)]
    ensures forall i | 0 <= i < |init| :: MatchedName(init[i], gaz, dist) != MatchedName(p, gaz, dist)
  {
    var st := ClaimAll(init, gaz, dist, fmt);
    ClaimAllValid(init, gaz, dist, fmt);
    var m := MatchedName(p, gaz, dist);
    assert m.Some? && m.value !in st.names;
    forall i | 0 <= i < |init|
      ensures MatchedName(init[i], gaz, dist) != m
    {
      if MatchedName(init[i], gaz, dist).Some? {
        NamesMatchedHas(init, i, gaz, dist);
      }
    }
  }

  /** A photo whose settlement an earlier photo already matched adds nothing. */
  lemma DuplicateClaimDropped(photos: seq<Photo>, p: Photo, gaz: seq<Settlement>, dist: Distance, fmt: DateFormat)
    requires MatchedName(p, gaz, dist).Some?
    requires exists j | 0 <= j < |photos| :: MatchedName(photos[j], gaz, dist) == MatchedName(p, gaz, dist)
    ensures ClaimAll(photos + [p], gaz, dist, fmt) == ClaimAll(photos, gaz, dist, fmt)
  {
    var st := ClaimAll(photos, gaz, dist, fmt);
    ClaimAllValid(photos, gaz, dist, fmt);
    NamesMatchedMembers(photos, gaz, dist);
    assert MatchedName(p, gaz, dist).value in st.names;
    var all := photos + [p];
    assert all[..|all| - 1] == photos && all[|all| - 1] == p;
    assert ClaimAll(all, gaz, dist, fmt) == ClaimStep(st, p, gaz, dist, fmt);
  }

  /** A photo with no settlement within the radius changes no state. */
  lemma UnmatchedPhotoChangesNothing(photos: seq<Photo>, p: Photo, gaz: seq<Settlement>, dist: Distance, fmt: DateFormat)
    requires forall i | 0 <= i < |gaz| :: KmTo(p.coords, gaz[i], dist) > MatchRadiusKm
    ensures ClaimAll(photos + [p], gaz, dist, fmt) == ClaimAll(photos, gaz, dist, fmt)
  {
  }

  /** Two photos matching the same settlement: only the first yields an entry. */
  lemma SecondClaimantDropped(a: Photo, b: Photo, gaz: seq<Settlement>, dist: Distance, fmt: DateFormat)
    requires MatchedName(a, gaz, dist).Some? && MatchedName(b, gaz, dist) == MatchedName(a, gaz, dist)
    ensures ClaimAll([a, b], gaz, dist, fmt).visited == [EntryFor(a, MatchedName(a, gaz, dist).value, fmt)]
  {
    assert [a, b][..1] == [a];
    assert [a][..0] == [];
    assert MatchedName([a][0], gaz, dist) == MatchedName(b, gaz, dist);
    DuplicateClaimDropped([a], b, gaz, dist, fmt);
  }

  // ── Unvisited settlements ───────────────────────────────────────────────

  /** The names of the gazetteer's settlements. */
  ghost function GazNames(gaz: seq<Settlement>): set<string>
  {
    if gaz == [] then {} else GazNames(gaz[..|gaz| - 1]) + {gaz[|gaz| - 1].name}
  }

  lemma {:induction false} GazNamesMembers(gaz: seq<Settlement>)
    ensures forall x :: x in GazNames(gaz) <==> exists k | 0 <= k < |gaz| :: gaz[k].name == x
  {
    if gaz != [] {
      var init := gaz[..|gaz| - 1];
      GazNamesMembers(init);
      assert forall k | 0 <= k < |init| :: init[k] == gaz[k];
    }
  }

  predicate UniqueNames(gaz: seq<Settlement>)
  {
    forall i, j | 0 <= i < j < |gaz| :: gaz[i].name != gaz[j].name
  }

  function UnvisitedEntryOf(s: Settlement, dist: Distance): UnvisitedEntry
  {
    UnvisitedEntry(s.name, s.lat, s.lon, dist(Home, Location(s)))
  }

  /** The unvisited list: gazetteer settlements whose name was not claimed. */
  function Unvisited(gaz: seq<Settlement>, names: set<string>, dist: Distance): seq<UnvisitedEntry>
  {
    if gaz == [] then []
    else
      var s := gaz[|gaz| - 1];
      Unvisited(gaz[..|gaz| - 1], names, dist) + (if s.name !in names then [UnvisitedEntryOf(s, dist)] else [])
  }

  /** The indices of the unclaimed settlements, in gazetteer order. */
  function UnclaimedIndices(gaz: seq<Settlement>, names: set<string>): seq<nat>
  {
    if gaz == [] then []
    else
      UnclaimedIndices(gaz[..|gaz| - 1], names) + (if gaz[|gaz| - 1].name !in names then [|gaz| - 1] else [])
  }

  /** The unvisited list is the subsequence of the gazetteer, in order, of
      exactly the settlements whose name is unclaimed. */
  lemma {:induction false} UnvisitedIsUnclaimedSubsequence(gaz: seq<Settlement>, names: set<string>, dist: Distance)
    ensures var idx := UnclaimedIndices(gaz, names);
      && |idx| == |Unvisited(gaz, names, dist)|
      && (forall t | 0 <= t < |idx| :: idx[t] < |gaz| && Unvisited(gaz, names, dist)[t] == UnvisitedEntryOf(gaz[idx[t]], dist))
      && (forall t, u | 0 <= t < u < |idx| :: idx[t] < idx[u])
      && (forall k | 0 <= k < |gaz| :: k in idx <==> gaz[k].name !in names)
  {
    if gaz != [] {
      var init := gaz[..|gaz| - 1];
      UnvisitedIsUnclaimedSubsequence(init, names, dist);
      assert forall k | 0 <= k < |init| :: init[k] == gaz[k];
    }
  }

  /** The names on the unvisited list are the unclaimed gazetteer names. */
  lemma {:induction false} UnvisitedNames(gaz: seq<Settlement>, names: set<string>, dist: Distance)
    ensures var u := Unvisited(gaz, names, dist);
      forall x :: (exists t | 0 <= t < |u| :: u[t].name == x) <==> x in GazNames(gaz) && x !in names
  {
    if gaz != [] {
      var init := gaz[..|gaz| - 1];
      var last := gaz[|gaz| - 1];
      UnvisitedNames(init, names, dist);
      var u0 := Unvisited(init, names, dist);
      var u := Unvisited(gaz, names, dist);
      assert u == u0 + (if last.name !in names then [UnvisitedEntryOf(last, dist)] else []);
      assert GazNames(gaz) == GazNames(init) + {last.name};
      forall x
        ensures (exists t | 0 <= t < |u| :: u[t].name == x) <==> x in GazNames(gaz) && x !in names
      {
        if exists t | 0 <= t < |u| :: u[t].name == x {
          var t :| 0 <= t < |u| && u[t].name == x;
          if t < |u0| {
            assert u0[t].name == x;
          }
        }
        if x in GazNames(init) && x !in names {
          assert exists t | 0 <= t < |u0| :: u0[t].name == x;
          var t :| 0 <= t < |u0| && u0[t].name == x;
          assert t < |u| && u[t] == u0[t];
          assert u[t].name == x;
        }
        if x == last.name && x !in names {
          assert u[|u| - 1].name == x;
        }
      }
    }
  }

  /** With unique names, removing a set of gazetteer names leaves exactly
      the rest of the gazetteer. */
  lemma {:induction false} UnvisitedCount(gaz: seq<Settlement>, names: set<string>, dist: Distance)
    requires UniqueNames(gaz)
    requires names <= GazNames(gaz)
    ensures |Unvisited(gaz, names, dist)| == |gaz| - |names|
  {
    if gaz == [] {
      assert names == {};
    } else {
      var init := gaz[..|gaz| - 1];
      var s := gaz[|gaz| - 1];
      assert forall k | 0 <= k < |init| :: init[k] == gaz[k];
      GazNamesMembers(init);
      assert s.name !in GazNames(init);
      var rest := names - {s.name};
      assert rest <= GazNames(init);
      UnvisitedCount(init, rest, dist);
      UnvisitedSameOffNames(init, names, rest, dist);
    }
  }

  /** Names absent from the gazetteer do not affect the unvisited list. */
  lemma {:induction false} UnvisitedSameOffNames(gaz: seq<Settlement>, a: set<string>, b: set<string>, dist: Distance)
    requires forall k | 0 <= k < |gaz| :: (gaz[k].name in a <==> gaz[k].name in b)
    ensures Unvisited(gaz, a, dist) == Unvisited(gaz, b, dist)
  {
    if gaz != [] {
      var init := gaz[..|gaz| - 1];
      assert forall k | 0 <= k < |init| :: init[k] == gaz[k];
      UnvisitedSameOffNames(init, a, b, dist);
    }
  }

  // ── Sorting the unvisited list ──────────────────────────────────────────

  predicate SortedByDistance(s: seq<UnvisitedEntry>)
  {
    forall i, j | 0 <= i < j < |s| :: s[i].distanceKm <= s[j].distanceKm
  }

  /** Insert `x` after every entry not farther than it. */
  function InsertByDistance(x: UnvisitedEntry, s: seq<UnvisitedEntry>): (r: seq<UnvisitedEntry>)
    ensures multiset(r) == multiset(s) + multiset{x}
  {
    if s == [] then [x]
    else if x.distanceKm < s[0].distanceKm then [x] + s
    else
      assert s == [s[0]] + s[1..];
      [s[0]] + InsertByDistance(x, s[1..])
  }

  lemma {:induction false} InsertKeepsSorted(x: UnvisitedEntry, s: seq<UnvisitedEntry>)
    requires SortedByDistance(s)
    ensures SortedByDistance(InsertByDistance(x, s))
  {
    if s != [] && x.distanceKm >= s[0].distanceKm {
      var tail := InsertByDistance(x, s[1..]);
      InsertKeepsSorted(x, s[1..]);
      forall i | 0 <= i < |tail|
        ensures s[0].distanceKm <= tail[i].distanceKm
      {
        assert tail[i] in multiset(tail);
        assert tail[i] in multiset(s[1..]) || tail[i] == x;
      }
    }
  }

  /** `sorted(unvisited, key=distance_km)`: an insertion sort, stable like Python's. */
  function SortByDistance(s: seq<UnvisitedEntry>): (r: seq<UnvisitedEntry>)
    ensures multiset(r) == multiset(s)
    ensures SortedByDistance(r)
  {
    if s == [] then []
    else
      assert s == s[..|s| - 1] + [s[|s| - 1]];
      InsertKeepsSorted(s[|s| - 1], SortByDistance(s[..|s| - 1]));
      InsertByDistance(s[|s| - 1], SortByDistance(s[..|s| - 1]))
  }

  /** The entries at distance `d`, in order. */
  function AtDistance(s: seq<UnvisitedEntry>, d: real): seq<UnvisitedEntry>
  {
    if s == [] then [] else (if s[0].distanceKm == d then [s[0]] else []) + AtDistance(s[1..], d)
  }

  lemma {:induction false} AtDistanceConcat(a: seq<UnvisitedEntry>, b: seq<UnvisitedEntry>, d: real)
    ensures AtDistance(a + b, d) == AtDistance(a, d) + AtDistance(b, d)
  {
    if a != [] {
      assert (a + b)[1..] == a[1..] + b;
      AtDistanceConcat(a[1..], b, d);
    } else {
      assert a + b == b;
    }
  }

  lemma {:induction false} AtDistanceInsert(x: UnvisitedEntry, s: seq<UnvisitedEntry>, d: real)
    requires SortedByDistance(s)
    ensures AtDistance(InsertByDistance(x, s), d) == AtDistance(s, d) + AtDistance([x], d)
  {
    var own := if x.distanceKm == d then [x] else [];
    assert AtDistance([x], d) == own + AtDistance([], d) by { assert [x][1..] == []; }
    if s == [] {
      assert InsertByDistance(x, s) == [x];
    } else if x.distanceKm < s[0].distanceKm {
      var r := [x] + s;
      assert InsertByDistance(x, s) == r;
      assert r[1..] == s;
      assert AtDistance(r, d) == own + AtDistance(s, d);
      if x.distanceKm == d {
        AtDistanceAbove(s, d);
      }
    } else {
      var tail := InsertByDistance(x, s[1..]);
      var r := [s[0]] + tail;
      assert InsertByDistance(x, s) == r;
      assert r[1..] == tail && r[0] == s[0];
      assert SortedByDistance(s[1..]);
      AtDistanceInsert(x, s[1..], d);
      var head := if s[0].distanceKm == d then [s[0]] else [];
      assert AtDistance(r, d) == head + AtDistance(tail, d);
      assert AtDistance(s, d) == head + AtDistance(s[1..], d);
      assert AtDistance(r, d) == head + (AtDistance(s[1..], d) + AtDistance([x], d));
    }
  }

  lemma {:induction false} AtDistanceAbove(s: seq<UnvisitedEntry>, d: real)
    requires forall i | 0 <= i < |s| :: s[i].distanceKm > d
    ensures AtDistance(s, d) == []
  {
    if s != [] {
      AtDistanceAbove(s[1..], d);
    }
  }

  /** The sort is stable: entries at equal distance keep their relative order. */
  lemma {:induction false} SortIsStable(s: seq<UnvisitedEntry>, d: real)
    ensures AtDistance(SortByDistance(s), d) == AtDistance(s, d)
  {
    if s != [] {
      var init := s[..|s| - 1];
      var last := s[|s| - 1];
      var sortedInit := SortByDistance(init);
      assert s == init + [last];
      assert SortedByDistance(sortedInit);
      calc {
        AtDistance(SortByDistance(s), d);
        { assert SortByDistance(s) == InsertByDistance(last, sortedInit); }
        AtDistance(InsertByDistance(last, sortedInit), d);
        { AtDistanceInsert(last, sortedInit, d); }
        AtDistance(sortedInit, d) + AtDistance([last], d);
        { SortIsStable(init, d); }
        AtDistance(init, d) + AtDistance([last], d);
        { AtDistanceConcat(init, [last], d); }
        AtDistance(s, d);
      }
    }
  }

  // ── The dataset ─────────────────────────────────────────────────────────

  datatype Stats = Stats(visited: nat, total: nat)

  /** What the build writes: the `visited` and `unvisited` lists and the
      counts of `data.json`, and the rows of the distance-sorted CSV. */
  datatype Dataset = Dataset(visited: seq<VisitedEntry>, unvisited: seq<UnvisitedEntry>, stats: Stats,
                             csvRows: seq<UnvisitedEntry>)

  /** The dataset the resolver builds from deduplicated photos. */
  function Resolution(photos: seq<Photo>, gaz: seq<Settlement>, dist: Distance, fmt: DateFormat): Dataset
  {
    var st := ClaimAll(photos, gaz, dist, fmt);
    var u := Unvisited(gaz, st.names, dist);
    Dataset(st.visited, u, Stats(|st.visited|, |st.visited| + |u|), SortByDistance(u))
  }

  /** The matching and partition section of `build`. `written` lists, in
      order, the file names handed to `save_web_photo`: one per visited
      entry and none for a dropped photo. */
  method Resolve(photos: seq<Photo>, gaz: seq<Settlement>, dist: Distance, fmt: DateFormat)
    returns (data: Dataset, written: seq<string>)
    ensures data == Resolution(photos, gaz, dist, fmt)
    ensures |written| == |data.visited|
    ensures forall i | 0 <= i < |written| :: data.visited[i].photo == "photos/" + written[i]
  {
    var visitedNames: set<string> := {};
    var visited: seq<VisitedEntry> := [];
    written := [];
    for i := 0 to |photos|
      invariant Claims(visitedNames, visited) == ClaimAll(photos[..i], gaz, dist, fmt)
      invariant |written| == |visited|
      invariant forall k | 0 <= k < |written| :: visited[k].photo == "photos/" + written[k]
    {
      var photo := photos[i];
      assert photos[..i + 1][..i] == photos[..i];
      assert ClaimAll(photos[..i + 1], gaz, dist, fmt) == ClaimStep(Claims(visitedNames, visited), photo, gaz, dist, fmt);
      var m := NearestSettlement(photo.coords, gaz, dist);
      if m.None? {
        continue;
      }
      var name := m.value.settlement.name;
      assert MatchedName(photo, gaz, dist) == Some(name);
      if name in visitedNames {
        continue;
      }
      visitedNames := visitedNames + {name};
      var outName := Stem(photo.name) + ".jpg";
      written := written + [outName];
      var date := if photo.taken != MinTimestamp then Some(fmt(photo.taken)) else None;
      visited := visited + [VisitedEntry(name, photo.coords.lat, photo.coords.lon, "photos/" + outName, date)];
    }
    assert photos[..|photos|] == photos;

    var unvisited: seq<UnvisitedEntry> := [];
    for i := 0 to |gaz|
      invariant unvisited == Unvisited(gaz[..i], visitedNames, dist)
    {
      var s := gaz[i];
      assert gaz[..i + 1][..i] == gaz[..i];
      assert Unvisited(gaz[..i + 1], visitedNames, dist) ==
        unvisited + (if s.name !in visitedNames then [UnvisitedEntryOf(s, dist)] else []);
      if s.name !in visitedNames {
        var d := dist(Home, Location(s));
        unvisited := unvisited + [UnvisitedEntry(s.name, s.lat, s.lon, d)];
      }
    }
    assert gaz[..|gaz|] == gaz;

    var total := |visited| + |unvisited|;
    data := Dataset(visited, unvisited, Stats(|visited|, total), SortByDistance(unvisited));
  }

  /** No unvisited entry carries a claimed name. */
  lemma {:induction false} UnvisitedAvoidsNames(gaz: seq<Settlement>, names: set<string>, dist: Distance)
    ensures forall t | 0 <= t < |Unvisited(gaz, names, dist)| :: Unvisited(gaz, names, dist)[t].name !in names
  {
    if gaz != [] {
      UnvisitedAvoidsNames(gaz[..|gaz| - 1], names, dist);
    }
  }

  /** No settlement name is both visited and unvisited. */
  lemma VisitedUnvisitedDisjoint(photos: seq<Photo>, gaz: seq<Settlement>, dist: Distance, fmt: DateFormat)
    ensures var d := Resolution(photos, gaz, dist, fmt);
      forall i, t | 0 <= i < |d.visited| && 0 <= t < |d.unvisited| :: d.visited[i].name != d.unvisited[t].name
  {
    var st := ClaimAll(photos, gaz, dist, fmt);
    ClaimAllValid(photos, gaz, dist, fmt);
    assert forall i | 0 <= i < |st.visited| :: st.visited[i].name in st.names;
    UnvisitedAvoidsNames(gaz, st.names, dist);
  }

  /** Together the two lists name every gazetteer settlement, and nothing else. */
  lemma VisitedUnvisitedCoverGazetteer(photos: seq<Photo>, gaz: seq<Settlement>, dist: Distance, fmt: DateFormat)
    ensures var d := Resolution(photos, gaz, dist, fmt);
      forall x :: x in GazNames(gaz) <==>
        (exists i | 0 <= i < |d.visited| :: d.visited[i].name == x) ||
        (exists t | 0 <= t < |d.unvisited| :: d.unvisited[t].name == x)
  {
    var st := ClaimAll(photos, gaz, dist, fmt);
    ClaimAllValid(photos, gaz, dist, fmt);
    ClaimedNamesInGazetteer(photos, gaz, dist, fmt);
    UnvisitedNames(gaz, st.names, dist);
    var u := Unvisited(gaz, st.names, dist);
    var d := Resolution(photos, gaz, dist, fmt);
    assert d.visited == st.visited && d.unvisited == u;
    forall x
      ensures x in GazNames(gaz) <==>
        (exists i | 0 <= i < |d.visited| :: d.visited[i].name == x) ||
        (exists t | 0 <= t < |d.unvisited| :: d.unvisited[t].name == x)
    {
      assert x in st.names <==> exists i | 0 <= i < |d.visited| :: d.visited[i].name == x;
      assert (exists t | 0 <= t < |d.unvisited| :: d.unvisited[t].name == x) <==> x in GazNames(gaz) && x !in st.names;
    }
  }

  /** The counts: `visited` is the visited list's length and `total` the sum
      of both lengths, which is the gazetteer's length when its names are
      unique. */
  lemma TotalCountsGazetteer(photos: seq<Photo>, gaz: seq<Settlement>, dist: Distance, fmt: DateFormat)
    ensures var d := Resolution(photos, gaz, dist, fmt);
      && d.stats.visited == |d.visited|
      && d.stats.total == |d.visited| + |d.unvisited|
      && (UniqueNames(gaz) ==> d.stats.total == |gaz|)
  {
    if UniqueNames(gaz) {
      var st := ClaimAll(photos, gaz, dist, fmt);
      ClaimAllValid(photos, gaz, dist, fmt);
      ClaimedNamesInGazetteer(photos, gaz, dist, fmt);
      UnvisitedCount(gaz, st.names, dist);
    }
  }

  /** A gazetteer of one settlement and one photo at its position, at
      distance 0: the settlement is visited, nothing is unvisited, and the
      counts are 1 of 1. */
  lemma SinglePhotoAtSettlement(p: Photo, s: Settlement, dist: Distance, fmt: DateFormat)
    requires p.coords == Location(s) && dist(Location(s), Location(s)) == 0.0
    ensures var d := Resolution([p], [s], dist, fmt);
      && d.visited == [EntryFor(p, s.name, fmt)]
      && d.unvisited == []
      && d.stats == Stats(1, 1)
  {
    ZeroDistanceMatches(p.coords, [s], 0, dist);
    assert MatchedName(p, [s], dist) == Some(s.name);
    assert [p][..0] == [];
    var st := ClaimAll([p], [s], dist, fmt);
    assert ClaimAll([p][..0], [s], dist, fmt) == Claims({}, []);
    assert st == ClaimStep(Claims({}, []), p, [s], dist, fmt);
    assert st == Claims({s.name}, [EntryFor(p, s.name, fmt)]);
    assert [s][..0] == [];
    assert Unvisited([s], st.names, dist) == Unvisited([], st.names, dist);
  }

  /** With nothing claimed, the unvisited list is the whole gazetteer, entry
      for entry. */
  lemma {:induction false} NothingClaimedLeavesAll(gaz: seq<Settlement>, dist: Distance)
    ensures |Unvisited(gaz, {}, dist)| == |gaz|
    ensures forall t | 0 <= t < |gaz| :: Unvisited(gaz, {}, dist)[t] == UnvisitedEntryOf(gaz[t], dist)
  {
    if gaz != [] {
      var init := gaz[..|gaz| - 1];
      NothingClaimedLeavesAll(init, dist);
      assert Unvisited(gaz, {}, dist) == Unvisited(init, {}, dist) + [UnvisitedEntryOf(gaz[|gaz| - 1], dist)];
      assert forall t | 0 <= t < |init| :: init[t] == gaz[t];
    }
  }

  /** Two photos with one stem that claim different settlements, such as
      "IMG_1.HEIC" and "IMG_1.jpg", give two visited entries with the same
      web photo path: the second save overwrites the first one's picture. */
  lemma SameStemSharesPhotoPath(p: Photo, q: Photo, gaz: seq<Settlement>, dist: Distance, fmt: DateFormat)
    requires Stem(p.name) == Stem(q.name)
    requires MatchedName(p, gaz, dist).Some? && MatchedName(q, gaz, dist).Some?
    requires MatchedName(p, gaz, dist) != MatchedName(q, gaz, dist)
    ensures var v := Resolution([p, q], gaz, dist, fmt).visited;
      && |v| == 2
      && v[0].name != v[1].name
      && v[0].photo == v[1].photo
  {
    var a, b := MatchedName(p, gaz, dist).value, MatchedName(q, gaz, dist).value;
    assert [p, q][..1] == [p] && [p][..0] == [];
    var st1 := ClaimAll([p], gaz, dist, fmt);
    assert ClaimAll([p][..0], gaz, dist, fmt) == Claims({}, []);
    assert st1 == ClaimStep(Claims({}, []), p, gaz, dist, fmt);
    assert st1 == Claims({a}, [EntryFor(p, a, fmt)]);
    var st2 := ClaimAll([p, q], gaz, dist, fmt);
    assert ClaimAll([p, q][..1], gaz, dist, fmt) == st1;
    assert st2 == ClaimStep(st1, q, gaz, dist, fmt);
    assert st2.visited == [EntryFor(p, a, fmt), EntryFor(q, b, fmt)];
  }

  /** Two gazetteer entries with one name: one claim shadows both, so the
      total falls short of the gazetteer's length. */
  lemma DuplicateNamesShadow(p: Photo, s1: Settlement, s2: Settlement, dist: Distance, fmt: DateFormat)
    requires s1.name == s2.name
    requires KmTo(p.coords, s1, dist) <= MatchRadiusKm
    ensures Resolution([p], [s1, s2], dist, fmt).stats.total == 1 < |[s1, s2]|
  {
    assert [p][..0] == [];
    var n := MatchedName(p, [s1, s2], dist);
    assert n.Some?;
    MatchedNameInGazetteer(p, [s1, s2], dist);
    assert n.value == s1.name;
    var st := ClaimAll([p], [s1, s2], dist, fmt);
    assert ClaimAll([p][..0], [s1, s2], dist, fmt) == Claims({}, []);
    assert st == ClaimStep(Claims({}, []), p, [s1, s2], dist, fmt);
    assert st.names == {s1.name} && |st.visited| == 1;
    assert [s1, s2][..1] == [s1];
    assert [s1][..0] == [];
    assert Unvisited([s1], st.names, dist) == Unvisited([], st.names, dist);
    assert Unvisited([s1, s2], st.names, dist) == Unvisited([s1], st.names, dist);
  }
}
