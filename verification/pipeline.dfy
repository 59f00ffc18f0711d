/**
 * `scan_and_build`: load the reference table, fingerprint it, load the cache, build the
 * matcher, scan, build the tree, save the cache, answer. Every outside input it reads
 * (the workbook, the table file's metadata, the cache file, the walk, the outcome of the
 * cache writes) is a field of `World`.
 */
module Pipeline {
  import opened Wrappers
  import opened Types
  import opened Seqs
  import Ioc
  import Cache
  import Matcher
  import Scanner
  import Tree

  /** The error `scan_and_build` passes up with `?`. */
  datatype ScanError = TableFailed(tableError: Ioc.LoadError) | CacheFailed(cacheError: Cache.CacheError)

  /** What `scan_and_build` finds outside: the opened workbook, the table file's metadata, the cache file, the walk and the cache writes. */
  datatype World = World(
    table: Option<Ioc.Workbook>,
    tableMeta: Option<Metadata>,
    cacheFile: Cache.CacheFileState,
    walk: seq<Scanner.WalkEntry>,
    save: Cache.SaveEnv)

  /** The save steps succeed: directory creation (when there is a parent), serialization and the write. */
  predicate SaveSucceeds(env: Cache.SaveEnv)
  {
    (!env.hasParent || env.createDirOk) && env.serializeOk && env.writeOk
  }

  /**
   * `tree`, `stats` and `records` are what scanning `walk` with the matcher `m` gives, for the
   * loaded table `ioc` and cache `cache`: the tree built from the matched photos, the scan's
   * counts, and one record per accepted file, in walk order.
   */
  predicate ScannedAs(walk: seq<Scanner.WalkEntry>, ioc: Ioc.IocDatabase, cache: Cache.CacheIndex, m: Matcher.NameMatcher,
                      tree: TaxonTree, stats: ScanStats, records: seq<CacheEntry>)
  {
    && Matcher.Built(m, ioc.entries)
    && Matcher.MapsInto(m, |ioc.entries|)
    && var results := Scanner.ScanResults(walk, ioc.entries, ioc.latinIndex, m, cache);
       var matches := FilterMap(results, Scanner.PhotoOf);
       && Tree.IndicesInRange(ioc.entries, matches)
       && tree == Tree.TreeOf(Tree.Aggregate(ioc.entries, matches))
       && |matches| <= |results|
       && stats == ScanStats(|results|, |matches|, |results| - |matches|)
       && records == FilterMap(results, Scanner.RecordOf)
  }

  /** The middle of `scan_and_build`: build the matcher, scan the walk, build the tree. */
  method ScanAndTree(walk: seq<Scanner.WalkEntry>, ioc: Ioc.IocDatabase, cache: Cache.CacheIndex)
    returns (tree: TaxonTree, output: Scanner.ScanOutput, ghost m: Matcher.NameMatcher)
    requires Scanner.KeyedByPath(cache)
    requires Ioc.IndexInRange(ioc.latinIndex, |ioc.entries|)
    ensures ScannedAs(walk, ioc, cache, m, tree, output.stats, output.cacheEntries)
    ensures Tree.TreeOk(tree) && Tree.TreeTotal(tree) == output.stats.matchedFiles
    ensures output.stats.totalFiles == output.stats.matchedFiles + output.stats.unmatchedFiles
    ensures |output.cacheEntries| == output.stats.totalFiles
  {
    var matcher := Matcher.New(ioc.entries);
    Matcher.BuiltMapsInto(matcher, ioc.entries);
    m := matcher;
    output := Scanner.ScanPaths(walk, ioc.entries, ioc.latinIndex, matcher, cache);
    Scanner.MatchesInRange(walk, ioc.entries, ioc.latinIndex, matcher, cache);
    assert Tree.IndicesInRange(ioc.entries, output.matches) by {
      forall k | 0 <= k < |output.matches| ensures output.matches[k].speciesIdx < |ioc.entries| {
        assert output.matches[k] in output.matches;
      }
    }
    tree := Tree.BuildTree(ioc.entries, output.matches);
    Scanner.RecordsOfItems(Scanner.ScanResults(walk, ioc.entries, ioc.latinIndex, matcher, cache));
  }

  /**
   * The steps run in order and the first failure is the answer: the table load, the
   * fingerprint, the cache load, and finally the cache save (after the scan). On success the
   * answer counts every species of the table, and its tree, its counts and the records written
   * are those of scanning the walk with the matcher built for the table (`ScannedAs`); the tree
   * is well formed and totals the matched files, and the record written carries the current
   * fingerprint.
   */
  method ScanAndBuild(w: World) returns (r: Result<ScanResponse, ScanError>, written: Option<CacheFile>)
    ensures Ioc.LoadResult(w.table).Err? ==> r == Err(TableFailed(Ioc.LoadResult(w.table).error))
    ensures Ioc.LoadResult(w.table).Ok? && Cache.Fingerprint(w.tableMeta).Err? ==>
      r == Err(CacheFailed(Cache.MetadataFailed))
    ensures (Ioc.LoadResult(w.table).Ok? && Cache.Fingerprint(w.tableMeta).Ok?
             && Cache.Loaded(w.cacheFile, Cache.Fingerprint(w.tableMeta).value).Err?) ==>
      r == Err(CacheFailed(Cache.Loaded(w.cacheFile, Cache.Fingerprint(w.tableMeta).value).error))
    ensures r.Ok? <==>
      && Ioc.LoadResult(w.table).Ok?
      && Cache.Fingerprint(w.tableMeta).Ok?
      && Cache.Loaded(w.cacheFile, Cache.Fingerprint(w.tableMeta).value).Ok?
      && SaveSucceeds(w.save)
    ensures written.Some? <==> r.Ok?
    ensures r.Ok? ==>
      && r.value.totalSpecies == |Ioc.LoadResult(w.table).value.entries|
      && Tree.TreeOk(r.value.tree)
      && Tree.TreeTotal(r.value.tree) == r.value.stats.matchedFiles
      && r.value.stats.totalFiles == r.value.stats.matchedFiles + r.value.stats.unmatchedFiles
      && written.value.version == 1
      && written.value.iocFingerprint == Cache.Fingerprint(w.tableMeta).value
      && |written.value.entries| == r.value.stats.totalFiles
    ensures r.Ok? ==> exists m: Matcher.NameMatcher :: ScannedAs(w.walk, Ioc.LoadResult(w.table).value,
      Cache.Loaded(w.cacheFile, Cache.Fingerprint(w.tableMeta).value).value, m, r.value.tree, r.value.stats, written.value.entries)
  {
    written := None;
    var loaded := Ioc.Load(w.table);
    if loaded.Err? {
      return Err(TableFailed(loaded.error)), None;
    }
    var ioc := loaded.value;
    Ioc.LoadResultSpec(w.table);
    var fp := Cache.Fingerprint(w.tableMeta);
    if fp.Err? {
      return Err(CacheFailed(fp.error)), None;
    }
    var cacheLoaded := Cache.LoadCache(w.cacheFile, fp.value);
    if cacheLoaded.Err? {
      return Err(CacheFailed(cacheLoaded.error)), None;
    }
    var cache := cacheLoaded.value;
    assert Scanner.KeyedByPath(cache) by {
      if w.cacheFile.Stored? && w.cacheFile.file.iocFingerprint == fp.value {
        Cache.IndexOfPaths(w.cacheFile.file.entries);
      }
    }
    var tree, output, m := ScanAndTree(w.walk, ioc, cache);

    var saved := Cache.SaveCache(fp.value, output.cacheEntries, w.save);
    if saved.Err? {
      return Err(CacheFailed(saved.error)), None;
    }
    written := Some(saved.value);
    r := Ok(ScanResponse(tree, output.stats, |ioc.entries|));
    assert ScannedAs(w.walk, ioc, cache, m, r.value.tree, r.value.stats, written.value.entries);
  }
}
