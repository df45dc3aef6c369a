# Suffolk Village Signs build pipeline — a Dafny model

This project models the matching and deduplication core of
`scripts/build.py`, the script that turns a folder of geotagged photos of
village signs into the site's dataset. It covers these stages:

- **EXIF helpers**: a numeric tag value becomes a real (`_to_float`).
  Degrees, minutes and seconds plus a hemisphere reference become decimal
  degrees (`_dms_to_decimal`). `extract_gps` picks GPS tags 1 to 4 of the
  GPS IFD (Exif 2.3, section 4.6.6). `extract_datetime` tries the
  capture-time tags in priority order.
- **Loader** (`load_photos`): keeps files with a supported suffix that
  open and carry coordinates, in listing order.
- **Deduplicator** (`deduplicate`): greedy clustering that compares each
  photo only with the first member of each cluster, in creation order.
  Each cluster then reduces to its first photo with the latest capture time.
- **Matcher** (`nearest_settlement`): a linear scan for the nearest
  settlement with strict `<`, so the earliest of equal minima wins. A
  match is accepted only within 1.5 km.
- **Resolver** (the loop in `build`): the first photo to match a
  settlement claims it, and later claims are dropped. Unclaimed
  settlements form the unvisited list, in gazetteer order, with their
  distance from home. There are two counts, and a copy of the unvisited
  list sorted by distance.

Numbers are Dafny `real`s. The geodesic distance is an uninterpreted
parameter `dist: (Point, Point) -> real`, in kilometres. The model assumes
no symmetry, no triangle inequality and no zero distance from a point to
itself, because the script relies on none of these. The timestamp parser
(`strptime`) is a partial function parameter `string -> Option<Timestamp>`
(`None` where `strptime` raises ValueError). The
date formatter (`strftime`) is a function parameter too. A timestamp is a
`nat`, with 0 standing for `datetime.min`. The directory listing is an
input sequence of entries. Each entry gives the file name, whether the
image opens, its GPS IFD and its EXIF dictionary.

Modules: `Common` (shared values), `Exif`, `Paths` (pathlib suffix and
stem), `Loader`, `Dedup`, `Matching`, `Resolver`, and `Build`, which
composes the stages.

Behaviour of the script that is easy to misread:
- A capture-time tag that is present but does not parse is skipped, and
  the next tag is tried.
- A parsed time equal to `datetime.min` also gets a null date.
- Distances come from geopy's ellipsoidal `geodesic`. The model treats
  them as opaque.
- The web photo's name is the original stem plus ".jpg", so two photos
  such as "IMG_1.HEIC" and "IMG_1.jpg" that claim different settlements
  write the same file, and the second save replaces the first picture.
  `Resolver.SameStemSharesPhotoPath` shows the two entries share one path.
- Gazetteer names are not checked for uniqueness.
  `Resolver.DuplicateNamesShadow` shows that one claim then removes every
  settlement of that name from the unvisited list.

## Model

| member | source | states |
|---|---|---|
| `Exif.ToReal` | scripts/build.py:45-51 | never fails on a rational, pair or float; a rational or a pair with non-zero denominator gives the quotient (result × denominator = numerator); a pair with zero denominator gives 0.0; only an unconvertible value fails |
| `Exif.DmsParts` | scripts/build.py:54-57 | the three components exist exactly when the value is a tuple of at least three convertible numbers, and they are those numbers' values |
| `Exif.DmsToDecimal` | scripts/build.py:54-59 | the result is d + m/60 + s/3600, negated exactly when the reference is "S" or "W"; it fails exactly when the components do |
| `Exif.HemisphereSign` | scripts/build.py:54-59 | with non-negative components a south/west reference gives a value ≤ 0 and any other reference a value ≥ 0 |
| `Exif.ExtractGps` | scripts/build.py:70-77 | an empty block gives no coordinates; coordinates exist exactly when tags 2 and 4 are present and convert; the latitude uses reference tag 1 (default "N") and the longitude reference tag 3 (default "E") |
| `Exif.GpsUsesTagsOneToFour` | scripts/build.py:73-74 | two GPS blocks that agree on tags 1–4 give the same result |
| `Exif.MissingRefsDefaultNorthEast` | scripts/build.py:73-74 | with both references absent and non-negative components, both coordinates are ≥ 0 |
| `Exif.HomeFixture` | scripts/build.py:38 | 52°14'07.8"N decodes to 52.2355 and 0°54'05.0"E to 0.9014 within 1e-4 |
| `Exif.FirstParsed` | scripts/build.py:87-94 | the capture time: the parse of the first tag, in the given order, that is present, non-empty and parses, or the minimum sentinel |
| `Exif.FirstParsedIsFirstReadable` | scripts/build.py:87-94 | the capture time is the parse of the first tag that is present, non-empty and parses; with no such tag it is the minimum sentinel |
| `Exif.ExtractDatetime` | scripts/build.py:80-94 | the loop with early return computes the first-readable-tag time over tags 36867, 36868, 306 |
| `Exif.UnparsableOriginalFallsBack` | scripts/build.py:87-93 | an unparsable DateTimeOriginal is skipped in favour of a parsable DateTimeDigitized |
| `Paths.Suffix` | scripts/build.py:108 | `PurePath.suffix`: the name from its last dot on, or "" when there is no dot or the last dot is the first or the final character |
| `Paths.Stem` | scripts/build.py:245 | `PurePath.stem`: the name without that suffix |
| `Paths.StemAndSuffix` | scripts/build.py:108 | a name is its stem followed by its suffix; a suffix is empty or a dot plus at least one non-dot character after a non-empty stem |
| `Paths.StemExamples` | scripts/build.py:245 | "IMG_1.HEIC" and "IMG_1.jpg" have the same stem "IMG_1" |
| `Paths.Lower` | scripts/build.py:108 | lower-casing keeps the length and lowers each ASCII capital |
| `Paths.LowerKeepsLastDot` | scripts/build.py:108 | lower-casing a name keeps the position of its last dot |
| `Paths.SuffixOfLower` | scripts/build.py:108 | the suffix of the lower-cased name is the lower-cased suffix |
| `Paths.LowerIdempotent` | scripts/build.py:108 | lower-casing twice is lower-casing once |
| `Loader.IsSupported` | scripts/build.py:108 | the lower-cased suffix is one of ".heic", ".heif", ".jpg", ".jpeg", ".png" |
| `Loader.SupportedIgnoresCase` | scripts/build.py:108 | for every name, the suffix filter gives the same answer for the name and for its lower-cased form |
| `Loader.Keeps` | scripts/build.py:108-115 | a file yields a record exactly when its suffix is supported, the image opens and its GPS block gives coordinates |
| `Loader.ToPhoto` | scripts/build.py:116-121 | the record of a kept file: its name, its coordinates and the capture time of its first readable datetime tag |
| `Loader.Loaded` | scripts/build.py:107-121 | the records of the kept files of the listing, in listing order |
| `Loader.SuffixExamples` | scripts/build.py:98-108 | ".HEIC" and a last ".jpg" are accepted; a bare ".jpg" name and ".txt" are not |
| `Loader.LoadPhotos` | scripts/build.py:101-125 | a missing directory gives no photos; otherwise the loop builds the loaded sequence of the listing |
| `Loader.LoadedExactlyKept` | scripts/build.py:107-121 | a photo is loaded exactly when a supported, opening file with coordinates yields it; no more photos than files |
| `Loader.KeptIndicesExact` | scripts/build.py:107-121 | the kept file indices increase strictly and are exactly the files with a supported suffix that open and carry coordinates |
| `Loader.LoadedIsKeptSubsequence` | scripts/build.py:107-121 | one photo per kept file, in listing order: the t-th loaded photo is the record of the t-th kept file |
| `Loader.LoadedNamesSupported` | scripts/build.py:108 | every loaded photo's name has a supported suffix |
| `Dedup.Near` | scripts/build.py:135 | a photo is within 50 m (distance in km × 1000) of a cluster's first member |
| `Dedup.FirstNear` | scripts/build.py:133-138 | the chosen cluster is the first whose first member lies within 50 m, or none if no such cluster exists |
| `Dedup.Place` | scripts/build.py:131-140 | one outer-loop step: the photo is appended to the first near cluster, or opens a new cluster at the end |
| `Dedup.Clusters` | scripts/build.py:130-140 | every cluster is non-empty and there are no more clusters than photos |
| `Dedup.PlaceKeepsWellFormed` | scripts/build.py:131-140 | placing one photo keeps the clustering invariant: members near their head and far from earlier heads, heads far from earlier heads |
| `Dedup.ClustersWellFormed` | scripts/build.py:130-140 | the clusters of any input satisfy that invariant, so a new cluster's first member is more than 50 m from every earlier head |
| `Dedup.PlaceKeepsOrder` | scripts/build.py:131-140 | appending a photo to its cluster or opening a new cluster keeps every cluster a subsequence of the photos seen so far |
| `Dedup.ClustersKeepInputOrder` | scripts/build.py:130-140 | every cluster lists its members in input order: it is a subsequence of the input, so a cluster's earliest maximum is its earliest maximum in input order |
| `Dedup.ClustersPartitionInput` | scripts/build.py:130-140 | the clusters hold exactly the input photos, as a multiset, and their sizes sum to the input length |
| `Dedup.LatestIndex` | scripts/build.py:142 | the chosen member has the greatest capture time, and every earlier member's is strictly smaller |
| `Dedup.Latest` | scripts/build.py:142 | the representative is a member with maximal capture time, and no earlier member has that time |
| `Dedup.Representatives` | scripts/build.py:142 | one representative per cluster, in creation order, each its cluster's latest |
| `Dedup.Deduplicate` | scripts/build.py:128-142 | the nested loop computes the representatives of the clustering; output length ≤ input length |
| `Dedup.OnePlaceOneCluster` | scripts/build.py:130-140 | photos whose every later member lies within 50 m of the first form exactly one cluster, holding all of them in order |
| `Dedup.OnePlaceLatest` | scripts/build.py:128-142 | such photos reduce to the single latest photo |
| `Dedup.LatestOfThree` | scripts/build.py:142 | three photos, the second and third within 50 m of the first, with times T1 < T2 < T3 reduce to the T3 photo |
| `Dedup.FarApartKeepsBoth` | scripts/build.py:135-140 | two photos more than 50 m apart are both kept, in order |
| `Matching.KmTo` | scripts/build.py:195 | the distance in km from a point to a settlement's coordinates |
| `Matching.ArgMin` | scripts/build.py:193-197 | the scan settles on a minimal distance, and every earlier settlement is strictly farther |
| `Matching.Nearest` | scripts/build.py:191-200 | no match exactly when every settlement (vacuously, none) is farther than 1.5 km; a match is a settlement at minimal distance ≤ 1.5 km, with that distance, earliest among equal minima |
| `Matching.NearestSettlement` | scripts/build.py:191-200 | the loop with the infinite initial best distance returns that match |
| `Matching.ZeroDistanceMatches` | scripts/build.py:193-199 | a point at distance 0 from a settlement (earlier ones farther, none negative) matches it with distance 0 |
| `Matching.TieGoesToEarlier` | scripts/build.py:196-197 | of two equidistant settlements within the radius, the first in gazetteer order wins |
| `Resolver.DateOf` | scripts/build.py:248 | the date is null exactly when the capture time is the minimum sentinel, and is otherwise the formatted date |
| `Resolver.MatchedName` | scripts/build.py:233-238 | the name of the nearest settlement within 1.5 km, or none |
| `Resolver.MatchedNameInGazetteer` | scripts/build.py:233-238 | a matched name is the name of a gazetteer settlement within 1.5 km |
| `Resolver.OutName` | scripts/build.py:245 | the web photo's file name: the original stem followed by ".jpg" |
| `Resolver.EntryFor` | scripts/build.py:245-255 | a visited record: the settlement name, the photo's latitude and longitude, "photos/" + the web file name, and the date |
| `Resolver.ClaimStep` | scripts/build.py:232-255 | one claim-loop iteration: an unmatched photo or an already claimed name leaves the state alone; otherwise the name is added and its record appended |
| `Resolver.ClaimAll` | scripts/build.py:229-255 | the claimed names and visited records after processing the photos in order |
| `Resolver.ClaimStepKeepsValid` | scripts/build.py:238-255 | one loop iteration keeps visited names pairwise distinct, the name set equal to the entries' names, one entry per name |
| `Resolver.ClaimAllValid` | scripts/build.py:229-256 | after any photo sequence that invariant holds, and the claimed names are exactly the names some photo matched |
| `Resolver.ClaimedNamesInGazetteer` | scripts/build.py:232-243 | every claimed name is a gazetteer name |
| `Resolver.EntriesComeFromFirstClaimants` | scripts/build.py:232-255 | every visited entry is built from the first photo, in processing order, that matched its settlement |
| `Resolver.NewClaimIsFirst` | scripts/build.py:238-255 | a photo that adds an entry adds exactly one, for a name no earlier photo matched |
| `Resolver.DuplicateClaimDropped` | scripts/build.py:239-242 | a photo whose settlement an earlier photo matched changes nothing |
| `Resolver.UnmatchedPhotoChangesNothing` | scripts/build.py:234-236 | a photo with every settlement beyond 1.5 km changes nothing |
| `Resolver.SecondClaimantDropped` | scripts/build.py:238-242 | of two photos matching one settlement only the first yields an entry |
| `Resolver.UnvisitedEntryOf` | scripts/build.py:263-268 | an unvisited record: the settlement's name and coordinates with `dist(Home, s)` |
| `Resolver.Unvisited` | scripts/build.py:260-269 | the gazetteer entries whose name is not in `names`, in order, each with its distance from home |
| `Resolver.UnvisitedIsUnclaimedSubsequence` | scripts/build.py:260-269 | the unvisited list is the gazetteer's subsequence, in order and by increasing index, of exactly the settlements with unclaimed names |
| `Resolver.UnvisitedNames` | scripts/build.py:261-262 | the unvisited names are exactly the gazetteer names that were not claimed |
| `Resolver.UnvisitedCount` | scripts/build.py:260-269 | with unique gazetteer names, removing a set of gazetteer names leaves the gazetteer length minus the set's size |
| `Resolver.InsertByDistance` | scripts/build.py:286 | insertion adds exactly the one entry (multiset) |
| `Resolver.InsertKeepsSorted` | scripts/build.py:286 | inserting into a distance-sorted list keeps it sorted |
| `Resolver.SortByDistance` | scripts/build.py:286 | the CSV order is a permutation of the unvisited list and non-decreasing in distance |
| `Resolver.SortIsStable` | scripts/build.py:286 | entries at equal distance keep their relative order, as Python's stable sort does |
| `Resolver.Resolution` | scripts/build.py:229-286 | the dataset: the claimed records, the unvisited list, the counts (visited records; visited plus unvisited) and the unvisited list sorted by distance |
| `Resolver.Resolve` | scripts/build.py:229-286 | the claim loop and the unvisited loop compute the dataset; one `save_web_photo` call per visited entry, in order, to the file under that entry's path (two entries may share that path) |
| `Resolver.SameStemSharesPhotoPath` | scripts/build.py:244-253 | two photos with one stem that claim different settlements give two visited entries with the same photo path |
| `Resolver.UnvisitedAvoidsNames` | scripts/build.py:261-262 | no unvisited entry carries a claimed name |
| `Resolver.NothingClaimedLeavesAll` | scripts/build.py:260-269 | with no claims the unvisited list has one entry per settlement, in gazetteer order |
| `Resolver.VisitedUnvisitedDisjoint` | scripts/build.py:243-262 | no settlement name is on both the visited and the unvisited list |
| `Resolver.VisitedUnvisitedCoverGazetteer` | scripts/build.py:229-269 | a name is a gazetteer name exactly when it is on the visited or the unvisited list |
| `Resolver.TotalCountsGazetteer` | scripts/build.py:276-277 | the visited count is the visited list's length and the total is the sum of both lengths, which equals the gazetteer length when names are unique |
| `Resolver.SinglePhotoAtSettlement` | scripts/build.py:229-277 | one settlement and one photo at its position give visited = [it], unvisited = [] and counts 1 of 1 |
| `Resolver.DuplicateNamesShadow` | scripts/build.py:238-262 | two gazetteer entries sharing a name and one claim give a total of 1 for a gazetteer of 2 |
| `Build.Build` | scripts/build.py:218-286 | load, deduplicate and resolve compose to the dataset of the deduplicated loaded photos |
| `Build.MissingDirectoryVisitsNothing` | scripts/build.py:104-105 | with no photo directory nothing is visited, the unvisited list is every settlement in gazetteer order, and the counts are 0 of the gazetteer length |

## Left out

- Image decoding and metadata access (`Image.open`, `getexif`, `get_ifd`, the `_getexif` fallback, lines 64-68 and 82-85): the GPS IFD and the EXIF dictionary are inputs, and failure to open is a flag on the file entry.
- The GPS IFD of the `_getexif` fallback, which older Pillow versions may give as an integer offset, is not modelled.
- Geodesic distance (lines 135, 195, 263): an uninterpreted parameter in kilometres. Metres are that value times 1000, as geopy computes them.
- Failing distances: geopy raises ValueError for a non-finite coordinate or a latitude outside [-90, 90], which is uncaught and aborts `build` with no dataset written. Such a photo passes the coordinates test at line 113, so `deduplicate` (line 135, once an earlier cluster exists) or `nearest_settlement` (line 195, with a non-empty gazetteer) would raise. The model's `dist` is total, so such a photo is clustered and matched like any other.
- Floating-point arithmetic: every number is an exact real. `round(d, 1)` (line 268) is left out, so `distanceKm` is the distance itself.
- Exif.ToReal: Pillow's IFDRational with a zero denominator evaluates to NaN, which has no real counterpart, so the model's rationals have non-zero denominators. In the script a NaN coordinate is loaded and then makes the first geodesic call on that photo raise, which aborts the whole run, not only that photo.
- Exif.ExtractGps: the script lets an IndexError (fewer than three components) or a ValueError from `float()` escape to `load_photos`, which drops the photo. The model returns no coordinates in both cases, and the loader drops the photo the same way.
- Exif.DmsParts: a GPS tag holding a string in the degrees/minutes/seconds position fails in the model. Python would index its characters and might convert digits.
- Exif.ExtractDatetime: EXIF values are strings. A non-string value makes `strptime` raise TypeError, which escapes to `load_photos` and drops the photo; that case is not modelled.
- `strptime` and `strftime` are function parameters. `datetime.now()` (the `generated` stat) is not modelled.
- The sort of the directory listing (line 107): it is taken as done, so the listing is supplied in sorted order.
- Paths.Lower: only ASCII letters are lower-cased. For comparison against the five ASCII suffixes this agrees with `str.lower`.
- `save_web_photo` (resize, rotation, JPEG encoding, lines 204-209): only the names it writes are modelled, as `written`.
- Fetching, caching and loading the gazetteer (lines 157-187), JSON and CSV writing (lines 281-291), `argparse`, the `print` diagnostics and the percentage they show, and the `pillow_heif` import guard (lines 21-26).
