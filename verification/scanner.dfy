/**
 * `scan_paths`: classify every supported image file found under the scan roots, reusing the
 * cache where it is still valid, and count the results.
 *
 * The directory walk is an input: a sequence of walk results in the order the parallel walk
 * happened to deliver them.
 */
module Scanner {
  import opened Wrappers
  import opened Text
  import opened Types
  import opened Seqs
  import Ioc
  import Matcher
  import Cache

  /** One result of the directory walk. */
  datatype WalkEntry =
    | WalkError
    | Visited(isFile: bool, path: string, fileName: Option<string>, meta: Option<Metadata>)

  /** The position of the last `.` in `s`, if any. */
  function LastDot(s: string): (r: Option<nat>)
    ensures r.Some? ==> r.value < |s| && s[r.value] == '.'
    ensures r.Some? ==> forall k :: r.value < k < |s| ==> s[k] != '.'
    ensures r.None? <==> forall k :: 0 <= k < |s| ==> s[k] != '.'
  {
    if s == [] then None
    else if s[|s| - 1] == '.' then Some(|s| - 1)
    else LastDot(s[..|s| - 1])
  }

  /**
   * Rust's split of a file name at its last dot into the part before and the part after:
   * `..` and names whose only dot leads them have no extension.
   */
  function SplitAtDot(name: string): (Option<string>, Option<string>)
  {
    if name == ".." then (Some(name), None)
    else match LastDot(name)
      case None => (None, Some(name))
      case Some(k) => if k == 0 then (Some(name), None) else (Some(name[..k]), Some(name[k + 1..]))
  }

  /** `Path::extension` of a path whose last component is `name`. */
  function Extension(name: string): Option<string>
  {
    var (before, after) := SplitAtDot(name);
    if before.Some? then after else None
  }

  /** `Path::file_stem` of a path whose last component is `name`. */
  function FileStem(name: string): Option<string>
  {
    var (before, after) := SplitAtDot(name);
    if before.Some? then before else after
  }

  /**
   * The stem and the extension split the name at its last dot: the name is the stem, a dot and
   * the extension, the extension holds no dot, and the stem is not empty.
   */
  lemma ExtensionSplitsName(name: string)
    requires Extension(name).Some?
    ensures FileStem(name).Some?
    ensures name == FileStem(name).value + "." + Extension(name).value
    ensures '.' !in Extension(name).value
    ensures FileStem(name).value != []
  {
    var k := LastDot(name).value;
    assert name == name[..k] + "." + name[k + 1..];
  }

  /** A name without a dot has no extension and is its own stem. */
  lemma NoDotNoExtension(name: string)
    requires '.' !in name
    ensures Extension(name).None?
    ensures FileStem(name) == Some(name)
  {
  }

  /** The extensions the scanner accepts, compared after ASCII lowercasing. */
  const SupportedExtensions: set<string> := {"jpg", "jpeg", "png", "heic"}

  /** `is_supported`, given the last component of the path. */
  predicate IsSupported(fileName: Option<string>)
  {
    fileName.Some? && Extension(fileName.value).Some? && ToLower(Extension(fileName.value).value) in SupportedExtensions
  }

  /** The last dot of `stem.ext` is the one joining them when `ext` has none. */
  lemma LastDotOfJoin(stem: string, ext: string)
    requires '.' !in ext
    ensures LastDot(stem + "." + ext) == Some(|stem|)
  {
    var n := stem + "." + ext;
    assert n[|stem|] == '.';
    assert forall k :: |stem| < k < |n| ==> n[k] == ext[k - |stem| - 1];
  }

  /** The extension of `stem.ext` is `ext`, except for the name `..`, which has none. */
  lemma ExtensionOfJoin(stem: string, ext: string)
    requires stem != [] && '.' !in ext
    ensures stem + "." + ext == ".." ==> ext == [] && Extension(stem + "." + ext).None?
    ensures stem + "." + ext != ".." ==> Extension(stem + "." + ext) == Some(ext)
  {
    var n := stem + "." + ext;
    LastDotOfJoin(stem, ext);
    assert n[..|stem|] == stem && n[|stem| + 1..] == ext;
    if n == ".." {
      assert |ext| == 0;
    }
  }

  /**
   * A name `stem.ext` is supported exactly when `ext`, lowercased, is one of the four
   * extensions; a name with no dot never is.
   */
  lemma IsSupportedSpec(stem: string, ext: string, name: string)
    requires stem != [] && '.' !in ext
    ensures IsSupported(Some(stem + "." + ext)) <==> ToLower(ext) in SupportedExtensions
    ensures '.' !in name ==> !IsSupported(Some(name))
  {
    ExtensionOfJoin(stem, ext);
    if ext == [] {
      ToLowerEmpty(ext);
      assert ToLower(ext) !in SupportedExtensions;
    }
  }

  /** What the per-file closure produces for one accepted file. */
  datatype ScanItem = ScanItem(matchedPhoto: Option<MatchedPhoto>, cacheEntry: CacheEntry)

  /**
   * The cache decision: a record for this path with the same mtime is reused, as a match when its
   * latin name is still in the latin index and as a non-match when it has no latin name.
   * `None` means the matcher has to run.
   */
  function Reused(cached: Option<CacheEntry>, mtime: int, latinIndex: map<string, nat>, path: string, fileName: string): Option<ScanItem>
  {
    if cached.None? || cached.value.mtime != mtime then None
    else match cached.value.speciesLatin
      case Some(latin) =>
        if ToLower(latin) in latinIndex then
          Some(ScanItem(Some(MatchedPhoto(path, fileName, latinIndex[ToLower(latin)])),
                        CacheEntry(cached.value.path, mtime, Some(latin))))
        else None
      case None => Some(ScanItem(None, CacheEntry(cached.value.path, mtime, None)))
  }

  /** Classification by the matcher, run on the file stem. */
  function Fresh(stem: string, path: string, fileName: string, mtime: int, entries: seq<IocEntry>, matcher: Matcher.NameMatcher): ScanItem
    requires Matcher.MapsInto(matcher, |entries|)
  {
    Matcher.MatchInRange(matcher, |entries|, stem);
    match Matcher.MatchName(matcher, stem)
    case Some(idx) =>
      ScanItem(Some(MatchedPhoto(path, fileName, idx)), CacheEntry(path, mtime, Some(entries[idx].latin)))
    case None => ScanItem(None, CacheEntry(path, mtime, None))
  }

  /** The name the matcher sees: the file stem, or the whole file name when there is no stem. */
  function StemOrName(fileName: string): string
  {
    FileStem(fileName).GetOr(fileName)
  }

  /** The per-file closure of `scan_paths`: `None` for walk errors, non-files and unsupported files. */
  function Classify(e: WalkEntry, entries: seq<IocEntry>, latinIndex: map<string, nat>, matcher: Matcher.NameMatcher, cache: Cache.CacheIndex): Option<ScanItem>
    requires Matcher.MapsInto(matcher, |entries|)
  {
    if e.WalkError? || !e.isFile || !IsSupported(e.fileName) then None
    else if e.fileName.None? then None
    else
      var fileName := e.fileName.value;
      var stem := StemOrName(fileName);
      var mtime := Cache.FileMtime(e.meta);
      var pathStr := e.path;
      match Reused(cache.Get(pathStr), mtime, latinIndex, pathStr, fileName)
      case Some(item) => Some(item)
      case None => Some(Fresh(stem, pathStr, fileName, mtime, entries, matcher))
  }

  /** Every record of the cache is stored under its own path. */
  predicate KeyedByPath(cache: Cache.CacheIndex)
  {
    forall p :: p in cache.entries ==> cache.entries[p].path == p
  }

  /** A file is accepted when the walk reached it, it is a regular file and its extension is supported. */
  predicate Accepted(e: WalkEntry)
  {
    e.Visited? && e.isFile && IsSupported(e.fileName)
  }

  /**
   * Each accepted file yields exactly one item, whose cache record carries the file's path and
   * current mtime, and which holds a photo exactly when the record names a species; the photo
   * carries the path, the file name and a valid entry index.
   */
  lemma ClassifySpec(e: WalkEntry, entries: seq<IocEntry>, latinIndex: map<string, nat>, matcher: Matcher.NameMatcher, cache: Cache.CacheIndex)
    requires Matcher.MapsInto(matcher, |entries|)
    requires KeyedByPath(cache)
    requires Ioc.IndexInRange(latinIndex, |entries|)
    ensures Classify(e, entries, latinIndex, matcher, cache).Some? <==> Accepted(e)
    ensures Accepted(e) ==>
      var item := Classify(e, entries, latinIndex, matcher, cache).value;
      && item.cacheEntry.path == e.path
      && item.cacheEntry.mtime == Cache.FileMtime(e.meta)
      && (item.matchedPhoto.Some? <==> item.cacheEntry.speciesLatin.Some?)
      && (item.matchedPhoto.Some? ==>
            && item.matchedPhoto.value.path == e.path
            && item.matchedPhoto.value.fileName == e.fileName.value
            && item.matchedPhoto.value.speciesIdx < |entries|)
  {
    if Accepted(e) {
      var fileName := e.fileName.value;
      var mtime := Cache.FileMtime(e.meta);
      ReusedShape(cache.Get(e.path), mtime, latinIndex, e.path, fileName, |entries|);
      FreshShape(StemOrName(fileName), e.path, fileName, mtime, entries, matcher);
    }
  }

  /**
   * `item` is an outcome for the file at `path`: its record has the path and the mtime, and it
   * holds a photo of that file with an index below `n` exactly when the record names a species.
   */
  predicate ItemFor(item: ScanItem, path: string, fileName: string, mtime: int, n: nat)
  {
    && item.cacheEntry.path == path
    && item.cacheEntry.mtime == mtime
    && (item.matchedPhoto.Some? <==> item.cacheEntry.speciesLatin.Some?)
    && (item.matchedPhoto.Some? ==>
          && item.matchedPhoto.value.path == path
          && item.matchedPhoto.value.fileName == fileName
          && item.matchedPhoto.value.speciesIdx < n)
  }

  lemma ReusedShape(cached: Option<CacheEntry>, mtime: int, latinIndex: map<string, nat>, path: string, fileName: string, n: nat)
    requires cached.Some? ==> cached.value.path == path
    requires Ioc.IndexInRange(latinIndex, n)
    ensures Reused(cached, mtime, latinIndex, path, fileName).Some? ==>
      ItemFor(Reused(cached, mtime, latinIndex, path, fileName).value, path, fileName, mtime, n)
  {
  }

  lemma FreshShape(stem: string, path: string, fileName: string, mtime: int, entries: seq<IocEntry>, matcher: Matcher.NameMatcher)
    requires Matcher.MapsInto(matcher, |entries|)
    ensures ItemFor(Fresh(stem, path, fileName, mtime, entries, matcher), path, fileName, mtime, |entries|)
  {
  }

  /**
   * A record for the path with the current mtime decides the outcome without the matcher: a
   * latin name still in the index gives a match at that index with the record unchanged, no
   * latin name gives a non-match.
   */
  lemma ClassifyReusesCache(e: WalkEntry, entries: seq<IocEntry>, latinIndex: map<string, nat>, matcher: Matcher.NameMatcher, cache: Cache.CacheIndex, cached: CacheEntry)
    requires Matcher.MapsInto(matcher, |entries|)
    requires KeyedByPath(cache)
    requires Accepted(e) && cache.Get(e.path) == Some(cached) && cached.mtime == Cache.FileMtime(e.meta)
    ensures cached.speciesLatin.Some? && ToLower(cached.speciesLatin.value) in latinIndex ==>
      Classify(e, entries, latinIndex, matcher, cache) ==
        Some(ScanItem(Some(MatchedPhoto(e.path, e.fileName.value, latinIndex[ToLower(cached.speciesLatin.value)])), cached))
    ensures cached.speciesLatin.None? ==>
      Classify(e, entries, latinIndex, matcher, cache) == Some(ScanItem(None, cached))
  {
  }

  /**
   * Without a usable record (none, a different mtime, or a latin name no longer indexed) the
   * matcher runs on the stem, and the new record stores the matched entry's latin name.
   */
  lemma ClassifyRunsMatcher(e: WalkEntry, entries: seq<IocEntry>, latinIndex: map<string, nat>, matcher: Matcher.NameMatcher, cache: Cache.CacheIndex)
    requires Matcher.MapsInto(matcher, |entries|)
    requires Accepted(e)
    requires var c := cache.Get(e.path);
      || c.None?
      || c.value.mtime != Cache.FileMtime(e.meta)
      || (c.value.speciesLatin.Some? && ToLower(c.value.speciesLatin.value) !in latinIndex)
    ensures Classify(e, entries, latinIndex, matcher, cache).Some?
    ensures var found := Matcher.MatchName(matcher, StemOrName(e.fileName.value));
      found.Some? ==> found.value < |entries|
    ensures var item := Classify(e, entries, latinIndex, matcher, cache).value;
      var found := Matcher.MatchName(matcher, StemOrName(e.fileName.value));
      && item.cacheEntry == CacheEntry(e.path, Cache.FileMtime(e.meta), if found.Some? then Some(entries[found.value].latin) else None)
      && (item.matchedPhoto.Some? <==> found.Some?)
      && (found.Some? ==> item.matchedPhoto.value.speciesIdx == found.value)
  {
    Matcher.MatchInRange(matcher, |entries|, StemOrName(e.fileName.value));
  }

  /**
   * A warm rescan classifies an unchanged file as the cold scan did, provided no two entries
   * share a lowercased latin name (with duplicates the matcher picks the first entry and the
   * latin index the last).
   */
  lemma RescanStable(e: WalkEntry, entries: seq<IocEntry>, matcher: Matcher.NameMatcher, cache: Cache.CacheIndex, cold: ScanItem)
    requires Matcher.MapsInto(matcher, |entries|)
    requires Ioc.UniqueLatin(entries)
    requires Classify(e, entries, Ioc.LatinIndexOf(entries), matcher, Cache.CacheIndex(map[])) == Some(cold)
    requires cache.Get(e.path) == Some(cold.cacheEntry)
    ensures Classify(e, entries, Ioc.LatinIndexOf(entries), matcher, cache) == Some(cold)
  {
    var stem := StemOrName(e.fileName.value);
    Matcher.MatchInRange(matcher, |entries|, stem);
    var found := Matcher.MatchName(matcher, stem);
    if found.Some? {
      var idx := found.value;
      Ioc.LatinLookupAnyCase(entries, idx, entries[idx].latin);
    }
  }

  /** The per-file closure as a function value, for `filter_map`. */
  function Classifier(entries: seq<IocEntry>, latinIndex: map<string, nat>, matcher: Matcher.NameMatcher, cache: Cache.CacheIndex): WalkEntry -> Option<ScanItem>
    requires Matcher.MapsInto(matcher, |entries|)
  {
    e => Classify(e, entries, latinIndex, matcher, cache)
  }

  /** The collected items, in the order the walk delivered the files. */
  function ScanResults(walk: seq<WalkEntry>, entries: seq<IocEntry>, latinIndex: map<string, nat>, matcher: Matcher.NameMatcher, cache: Cache.CacheIndex): seq<ScanItem>
    requires Matcher.MapsInto(matcher, |entries|)
  {
    FilterMap(walk, Classifier(entries, latinIndex, matcher, cache))
  }

  function PhotoOf(item: ScanItem): Option<MatchedPhoto>
  {
    item.matchedPhoto
  }

  function RecordOf(item: ScanItem): Option<CacheEntry>
  {
    Some(item.cacheEntry)
  }

  function UnmatchedRecordOf(item: ScanItem): Option<CacheEntry>
  {
    if item.matchedPhoto.None? then Some(item.cacheEntry) else None
  }

  datatype ScanOutput = ScanOutput(matches: seq<MatchedPhoto>, cacheEntries: seq<CacheEntry>, stats: ScanStats)

  /** `usize::saturating_sub` */
  function SaturatingSub(a: nat, b: nat): (r: nat)
    ensures b <= a ==> r + b == a
    ensures a < b ==> r == 0
  {
    if b <= a then a - b else 0
  }

  /** The aggregation loop of `scan_paths`. */
  method Aggregate(results: seq<ScanItem>) returns (out: ScanOutput)
    ensures out.cacheEntries == FilterMap(results, RecordOf)
    ensures out.matches == FilterMap(results, PhotoOf)
    ensures out.stats.totalFiles == |results|
    ensures out.stats.matchedFiles == |out.matches| <= |results|
    ensures out.stats.unmatchedFiles == |results| - |out.matches|
  {
    var matches: seq<MatchedPhoto> := [];
    var cacheEntries: seq<CacheEntry> := [];
    var totalFiles: nat := 0;
    var matchedFiles: nat := 0;
    for i := 0 to |results|
      invariant cacheEntries == FilterMap(results[..i], RecordOf)
      invariant matches == FilterMap(results[..i], PhotoOf)
      invariant totalFiles == i
      invariant matchedFiles == |matches| <= i
    {
      var item := results[i];
      assert results[..i + 1] == results[..i] + [item];
      FilterMapSnoc(results[..i], item, RecordOf);
      FilterMapSnoc(results[..i], item, PhotoOf);
      totalFiles := totalFiles + 1;
      cacheEntries := cacheEntries + [item.cacheEntry];
      if item.matchedPhoto.Some? {
        matchedFiles := matchedFiles + 1;
        matches := matches + [item.matchedPhoto.value];
      }
    }
    assert results[..|results|] == results;
    var unmatchedFiles := SaturatingSub(totalFiles, matchedFiles);
    out := ScanOutput(matches, cacheEntries, ScanStats(totalFiles, matchedFiles, unmatchedFiles));
  }

  /** `scan_paths` */
  method ScanPaths(walk: seq<WalkEntry>, entries: seq<IocEntry>, latinIndex: map<string, nat>, matcher: Matcher.NameMatcher, cache: Cache.CacheIndex)
    returns (out: ScanOutput)
    requires Matcher.MapsInto(matcher, |entries|)
    ensures var results := ScanResults(walk, entries, latinIndex, matcher, cache);
      && out.cacheEntries == FilterMap(results, RecordOf)
      && out.matches == FilterMap(results, PhotoOf)
      && |out.matches| <= |results|
      && out.stats == ScanStats(|results|, |out.matches|, |results| - |out.matches|)
  {
    var results := FilterMap(walk, Classifier(entries, latinIndex, matcher, cache));
    out := Aggregate(results);
  }

  /** One cache record per item, in item order. */
  lemma {:induction false} RecordsOfItems(results: seq<ScanItem>)
    ensures |FilterMap(results, RecordOf)| == |results|
    ensures forall i :: 0 <= i < |results| ==> FilterMap(results, RecordOf)[i] == results[i].cacheEntry
  {
    if results != [] {
      RecordsOfItems(results[1..]);
    }
  }

  /** Every item is a match or a non-match: the unmatched count is the number of items without a photo. */
  lemma {:induction false} MatchedPlusUnmatched(results: seq<ScanItem>)
    ensures |FilterMap(results, PhotoOf)| + |FilterMap(results, UnmatchedRecordOf)| == |results|
  {
    if results != [] {
      MatchedPlusUnmatched(results[1..]);
    }
  }

  /**
   * The scan's counts do not depend on the order in which the walk delivered the files: any
   * rearrangement of the walk gives the same total, matched and unmatched counts, and the same
   * matches and records up to order.
   */
  lemma CountsIgnoreWalkOrder(walk1: seq<WalkEntry>, walk2: seq<WalkEntry>, entries: seq<IocEntry>, latinIndex: map<string, nat>, matcher: Matcher.NameMatcher, cache: Cache.CacheIndex)
    requires Matcher.MapsInto(matcher, |entries|)
    requires multiset(walk1) == multiset(walk2)
    ensures var r1, r2 := ScanResults(walk1, entries, latinIndex, matcher, cache), ScanResults(walk2, entries, latinIndex, matcher, cache);
      && multiset(r1) == multiset(r2)
      && |r1| == |r2|
      && multiset(FilterMap(r1, PhotoOf)) == multiset(FilterMap(r2, PhotoOf))
      && |FilterMap(r1, PhotoOf)| == |FilterMap(r2, PhotoOf)|
      && multiset(FilterMap(r1, RecordOf)) == multiset(FilterMap(r2, RecordOf))
  {
    var f := Classifier(entries, latinIndex, matcher, cache);
    FilterMapPermutation(walk1, walk2, f);
    var r1, r2 := FilterMap(walk1, f), FilterMap(walk2, f);
    assert |r1| == |multiset(r1)| == |multiset(r2)| == |r2|;
    FilterMapPermutation(r1, r2, PhotoOf);
    FilterMapPermutation(r1, r2, RecordOf);
    var p1, p2 := FilterMap(r1, PhotoOf), FilterMap(r2, PhotoOf);
    assert |p1| == |multiset(p1)| == |multiset(p2)| == |p2|;
  }

  /** The number of files scanned is the number of accepted walk entries. */
  lemma {:induction false} TotalIsAccepted(walk: seq<WalkEntry>, entries: seq<IocEntry>, latinIndex: map<string, nat>, matcher: Matcher.NameMatcher, cache: Cache.CacheIndex)
    requires Matcher.MapsInto(matcher, |entries|)
    requires KeyedByPath(cache)
    requires Ioc.IndexInRange(latinIndex, |entries|)
    ensures |ScanResults(walk, entries, latinIndex, matcher, cache)| == |FilterMap(walk, AcceptedPath)|
  {
    if walk != [] {
      ClassifySpec(walk[0], entries, latinIndex, matcher, cache);
      TotalIsAccepted(walk[1..], entries, latinIndex, matcher, cache);
    }
  }

  function AcceptedPath(e: WalkEntry): Option<string>
  {
    if Accepted(e) then Some(e.path) else None
  }

  /** Every match the scan reports names a valid entry. */
  lemma {:induction false} MatchesInRange(walk: seq<WalkEntry>, entries: seq<IocEntry>, latinIndex: map<string, nat>, matcher: Matcher.NameMatcher, cache: Cache.CacheIndex)
    requires Matcher.MapsInto(matcher, |entries|)
    requires KeyedByPath(cache)
    requires Ioc.IndexInRange(latinIndex, |entries|)
    ensures forall m :: m in FilterMap(ScanResults(walk, entries, latinIndex, matcher, cache), PhotoOf) ==> m.speciesIdx < |entries|
  {
    var results := ScanResults(walk, entries, latinIndex, matcher, cache);
    var f := Classifier(entries, latinIndex, matcher, cache);
    FilterMapSpec(walk, f);
    FilterMapSpec(results, PhotoOf);
    forall m | m in FilterMap(results, PhotoOf)
      ensures m.speciesIdx < |entries|
    {
      var i :| 0 <= i < |results| && PhotoOf(results[i]) == Some(m);
      assert results[i] in results;
      var j :| 0 <= j < |walk| && f(walk[j]) == Some(results[i]);
      ClassifySpec(walk[j], entries, latinIndex, matcher, cache);
    }
  }
}
