/** The records the classification core passes between its stages. */
module Types {
  import opened Wrappers

  /** One accepted row of the reference table. */
  datatype IocEntry = IocEntry(order: string, family: string, latin: string, chinese: string)

  datatype PhotoItem = PhotoItem(path: string, fileName: string)

  datatype SpeciesNode = SpeciesNode(latin: string, chinese: string, count: nat, photos: seq<PhotoItem>)

  datatype GenusNode = GenusNode(name: string, count: nat, species: seq<SpeciesNode>)

  datatype FamilyNode = FamilyNode(name: string, count: nat, genera: seq<GenusNode>)

  datatype OrderNode = OrderNode(name: string, count: nat, families: seq<FamilyNode>)

  datatype TaxonTree = TaxonTree(orders: seq<OrderNode>)

  datatype ScanStats = ScanStats(totalFiles: nat, matchedFiles: nat, unmatchedFiles: nat)

  datatype ScanResponse = ScanResponse(tree: TaxonTree, stats: ScanStats, totalSpecies: nat)

  /** A file whose name resolved to `speciesIdx`, a position in the entry list. */
  datatype MatchedPhoto = MatchedPhoto(path: string, fileName: string, speciesIdx: nat)

  /** The last known classification of one file: its path, whole-second mtime and latin name. */
  datatype CacheEntry = CacheEntry(path: string, mtime: int, speciesLatin: Option<string>)

  /** The persisted cache snapshot. */
  datatype CacheFile = CacheFile(version: nat, iocFingerprint: string, entries: seq<CacheEntry>)

  /** A point in time as `SystemTime` holds it: nanoseconds relative to the Unix epoch. */
  datatype SystemTime = SystemTime(nanosSinceEpoch: int)

  /** What `fs::metadata` reports about a file: its length and, if the platform has it, its mtime. */
  datatype Metadata = Metadata(len: nat, modified: Option<SystemTime>)
}
