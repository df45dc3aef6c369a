/** `build`, up to the dataset it writes: load the photos, deduplicate them,
    then resolve them against the gazetteer. */
module Build {
  import opened Common
  import opened Exif
  import opened Loader
  import opened Dedup
  import opened Resolver

  /** The dataset for a photo directory (`dirExists`, `files`) and a gazetteer. */
  method Build(dirExists: bool, files: seq<FileEntry>, parse: Parser, gaz: seq<Settlement>,
               dist: Distance, fmt: DateFormat)
    returns (data: Dataset, written: seq<string>)
    ensures var raw := if dirExists then Loaded(files, parse) else [];
      data == Resolution(Representatives(Clusters(raw, dist)), gaz, dist, fmt)
    ensures |written| == |data.visited|
  {
    var raw := LoadPhotos(dirExists, files, parse);
    var photos := Deduplicate(raw, dist);
    data, written := Resolve(photos, gaz, dist, fmt);
  }

  /** A missing photo directory visits nothing and leaves every settlement
      unvisited, in gazetteer order; the counts are 0 of the gazetteer's length. */
  lemma MissingDirectoryVisitsNothing(dirExists: bool, files: seq<FileEntry>, parse: Parser,
                                      gaz: seq<Settlement>, dist: Distance, fmt: DateFormat)
    requires !dirExists
    ensures var raw := if dirExists then Loaded(files, parse) else [];
      var d := Resolution(Representatives(Clusters(raw, dist)), gaz, dist, fmt);
      && d.visited == []
      && d.unvisited == Unvisited(gaz, {}, dist)
      && |d.unvisited| == |gaz|
      && (forall t | 0 <= t < |gaz| :: d.unvisited[t] == UnvisitedEntryOf(gaz[t], dist))
      && d.stats == Stats(0, |gaz|)
  {
    assert Representatives(Clusters([], dist)) == [];
    NothingClaimedLeavesAll(gaz, dist);
  }
}
