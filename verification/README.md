# BirdIndex2 classification core, in Dafny

BirdIndex2 sorts a folder of bird photos into the IOC bird taxonomy. The core of the
program is in `src-tauri/src/core`. It works in six steps:

1. It reads the IOC reference table, a worksheet with `Order`, `Family`, `IOC_15.1`
   (latin) and `Chinese` columns.
2. It builds a case-insensitive name matcher. Latin names are searched first, Chinese
   names second, each side leftmost-first.
3. It loads a path-keyed cache of earlier results. The cache is valid only for the same
   reference-table fingerprint.
4. It walks the photo folders. Each supported file is classified, either from the cache
   or by the matcher, and the files are counted.
5. It groups the matched photos into an order → family → genus → species tree. The tree
   is sorted at every level and the counts are rolled up.
6. It writes the cache back.

The project models each of these steps and proves what the code promises about it.

- **Modules.** One Dafny module per Rust file: `Ioc`, `Matcher`, `Cache`, `Scanner`,
  `Tree`, plus `Pipeline` for `scan_and_build`. The supporting modules are:
  - `Types`: the records of `types.rs`.
  - `Text`: Rust's `trim`, `to_lowercase`, `split_whitespace` and string order.
  - `Seqs`: `filter_map`, `map`, `sum`, and a keyed lookup.
  - `Sorting`: `sort_by`.
  - `Wrappers`: `Option` and `Result`.
- **Step by step vs expressions.** Code that works step by step is a `method` with a loop:
  - the header map, row filter and latin index of `IocDatabase::load`;
  - the pattern lists of `NameMatcher::new`;
  - the counting loop of `scan_paths`;
  - the grouping loop of `build_tree`.

  Each such method is proved equal to a specification function. The properties are
  proved about that function. Code written as expressions is a function.
- **HashMap.** A Rust `HashMap` that the code fills is a list with distinct keys, in
  first-insertion order. The code sorts every level of the tree by that distinct key
  before the order can be observed.
- **aho-corasick.** The automaton is replaced by its specification, `Automaton.Find`: the
  occurrence that starts earliest wins, and among the patterns starting there, the first
  registered wins.

The code does the following, which a reader might not expect:

- `load` checks the order and family cells for presence only, not for being non-empty.
- A cache file that cannot be read or parsed makes `load_cache` fail. `scan_and_build`
  passes that error on, so it is not an empty cache.
- A failed cache save makes `scan_and_build` return an error after the scan.
- A latin name matches only when its whole lowercased text, including the space, occurs
  in the file stem. So `turdus_merula_01` does not match `Turdus merula`
  (`Matcher.SpacedPatternNeedsSpace`).
- A rescan with a warm cache is proved to give the same answer as a cold scan when the
  lowercased latin names are unique (`Scanner.RescanStable`). With duplicates, a rescan
  can move a photo to another entry. The matcher picks the first entry with a name, and
  the record stores that entry's latin. On the rescan, the record is reused, and
  `latin_index` sends its latin to the last entry with that name
  (`Ioc.LatinLookupAnyCase`).

## Model

| member | source | states |
|---|---|---|
| Ioc.CellString | src-tauri/src/core/ioc.rs:85-97 | Empty and Error cells give nothing, and every other cell gives text. A string cell gives its text trimmed, which is empty exactly when the text is all whitespace. An integer gives its decimal digits, a boolean "true" or "false", and the date, time and float cells the text they carry |
| Ioc.LastPositionsSpec | src-tauri/src/core/ioc.rs:27-32 | Building a map by inserting key positions in order: a key is present exactly when some element names it, and its position is the last element naming it |
| Ioc.ColumnMapSpec | src-tauri/src/core/ioc.rs:27-32 | A name is a column key exactly when some header cell reads as that name. It maps to a cell reading as it, and no later cell has the same name, so a duplicate header keeps the last column |
| Ioc.HeaderColumns | src-tauri/src/core/ioc.rs:27-32 | The insert loop over the header row builds exactly the column map of the specification |
| Ioc.RequiredColumns | src-tauri/src/core/ioc.rs:34-45 | Succeeds exactly when all four required columns are present, and then gives their positions. Otherwise the error names the first required column, in the order Order, Family, IOC_15.1, Chinese, that is absent |
| Ioc.AcceptRowSpec | src-tauri/src/core/ioc.rs:47-71 | A row is kept exactly when its order, family and latin cells are present and its latin is not all whitespace. The kept entry's order, family, latin and Chinese name are the trimmed texts of those cells, with "" for a missing Chinese cell. The latin is non-empty |
| Ioc.KeptRowsSpec | src-tauri/src/core/ioc.rs:47-71 | The kept entries are exactly the accepted rows, in row order (filtering distributes over concatenation), are never more than the rows, and are all well formed |
| Ioc.KeepRows | src-tauri/src/core/ioc.rs:47-71 | The push-and-continue loop returns exactly the kept rows |
| Ioc.LatinIndexSpec | src-tauri/src/core/ioc.rs:73-76 | A key is present exactly when some entry's lowercased latin equals it. It maps to such an entry, and no later entry has the same key, so the last duplicate wins |
| Ioc.IndexLatin | src-tauri/src/core/ioc.rs:73-76 | The insert loop builds exactly that index |
| Ioc.LatinIndexInRange | src-tauri/src/core/ioc.rs:73-76 | Every index in `latin_index` is below the number of entries |
| Ioc.LatinLookupAnyCase | src-tauri/src/core/ioc.rs:73-76 | Any spelling of an entry's latin that lowercases the same finds an entry with that lowercased latin, and finds that very entry when lowercased latin names are unique |
| Ioc.LoadResultSpec | src-tauri/src/core/ioc.rs:13-82 | Open failure, a missing sheet, a sheet without a header row and a missing column are errors, in that order. On success every entry is well formed, there are fewer entries than sheet rows, and the index stays in range |
| Ioc.Load | src-tauri/src/core/ioc.rs:13-82 | The step-by-step load returns exactly the specified result |
| Matcher.Automaton.Find | src-tauri/src/core/matcher.rs:34-37 | Leftmost-first search. A hit is an occurrence of its pattern, no pattern occurs earlier, and no lower-numbered pattern occurs at the same start. There is no hit exactly when no pattern occurs |
| Matcher.Automaton.FindFrom | src-tauri/src/core/matcher.rs:34-37 | The same leftmost-first search, restricted to occurrences at or after a position |
| Matcher.Automaton.FirstAt | src-tauri/src/core/matcher.rs:34-37 | The lowest-numbered pattern from a given number on that occurs at a position, or none when none does |
| Matcher.KeysOf | src-tauri/src/core/matcher.rs:19-27 | One pattern slot per entry: the trimmed name, lowercased, or nothing when the trimmed name is empty. Every pattern is non-empty and already lower case |
| Matcher.AutomatonOf | src-tauri/src/core/matcher.rs:31-47 | No automaton exactly when the pattern list is empty. Otherwise the automaton holds the patterns in order |
| Matcher.PatternListPush | src-tauri/src/core/matcher.rs:20-23 | Pushing a non-empty name and its index keeps the pattern list parallel to its map, strictly increasing, in range and complete |
| Matcher.PatternListSkip | src-tauri/src/core/matcher.rs:20-28 | Skipping an entry whose trimmed name is empty keeps the same invariant |
| Matcher.AddName | src-tauri/src/core/matcher.rs:19-28 | One step of the loop pushes the lowercased trimmed name and its index exactly when the trimmed name is non-empty, and keeps the invariant |
| Matcher.New | src-tauri/src/core/matcher.rs:12-55 | Both sides are built for the entries. Each map is parallel to its pattern list, strictly increasing and below the entry count, and holds every entry with a non-empty name. A side has no automaton exactly when it has no patterns |
| Matcher.Get | src-tauri/src/core/matcher.rs:62 | `Vec::get`: the element at an index inside the vector, nothing outside it |
| Matcher.WinnerUnique | src-tauri/src/core/matcher.rs:61-62 | At most one entry is the leftmost-first winner for a name |
| Matcher.HitIsWinner | src-tauri/src/core/matcher.rs:61-62 | Mapping the automaton's hit through the index map gives the winning entry |
| Matcher.OccurrenceGivesHit | src-tauri/src/core/matcher.rs:60-61 | If any pattern of a side occurs, that side has an automaton and it finds a hit |
| Matcher.SideMatchSpec | src-tauri/src/core/matcher.rs:60-70 | A side finds a hit exactly when one of its patterns occurs. It resolves to an entry exactly then, and that entry is the winner |
| Matcher.MatchLatinFirst | src-tauri/src/core/matcher.rs:60-64 | When any latin pattern occurs in the lowercased name, the answer is the latin winner, whatever the Chinese side holds |
| Matcher.MatchChineseFallback | src-tauri/src/core/matcher.rs:66-70 | When no latin pattern occurs but a Chinese one does, the answer is the Chinese winner |
| Matcher.MatchNoneIff | src-tauri/src/core/matcher.rs:57-73 | No answer exactly when no pattern of either side occurs. Any answer is a valid entry index |
| Matcher.BuiltMapsInto | src-tauri/src/core/matcher.rs:18-29 | A built matcher's maps point only at entries |
| Matcher.PatternListUnique | src-tauri/src/core/matcher.rs:18-29 | A complete pattern list for the keys is unique: the patterns of the non-empty keys, in entry order, with their entry indices |
| Matcher.BuiltUnique | src-tauri/src/core/matcher.rs:12-55 | The entries determine the matcher: two matchers built for the same entries are equal, so `NameMatcher::new` has exactly one possible result |
| Matcher.MatchInRange | src-tauri/src/core/matcher.rs:62 | When the maps point only at entries, every answer is a valid entry index |
| Matcher.MatchCaseInsensitive | src-tauri/src/core/matcher.rs:58 | Names that lowercase the same get the same answer |
| Matcher.EmptySideNeverMatches | src-tauri/src/core/matcher.rs:31-47 | A side has no automaton exactly when no entry gives it a pattern, and then it never matches |
| Matcher.SpacedPatternNeedsSpace | src-tauri/src/core/matcher.rs:21 | A pattern containing a space can only occur in a name containing a space |
| Cache.IndexOfKeys | src-tauri/src/core/cache.rs:40-43 | The index's keys are exactly the stored entries' paths |
| Cache.IndexOfLast | src-tauri/src/core/cache.rs:40-43 | Each path maps to the last stored entry with that path |
| Cache.IndexOfPaths | src-tauri/src/core/cache.rs:40-43 | Every key maps to an entry recording that same path |
| Cache.LoadCache | src-tauri/src/core/cache.rs:25-46 | The insert loop returns exactly the specified index or error |
| Cache.LoadedSpec | src-tauri/src/core/cache.rs:25-46 | The index is empty when the file is absent. A read failure and a parse failure are errors. The index is empty when the fingerprint differs. With a matching fingerprint, a path is found exactly when a stored entry has it, and the last such entry is returned |
| Cache.SaveCache | src-tauri/src/core/cache.rs:48-70 | Succeeds exactly when the parent directory can be made (if there is one), serialization works and the write works. Otherwise the first failing step is the error: directory creation, then serialization, then the write. The record written has version 1, the given fingerprint and the entries in order |
| Cache.SaveThenLoad | src-tauri/src/core/cache.rs:48-70 | Saving, then loading with the same fingerprint, returns for a path the last saved entry with that path |
| Cache.SaveThenLoadMissing | src-tauri/src/core/cache.rs:48-70 | A path never saved is not found after the round trip |
| Cache.SecondsSinceEpoch | src-tauri/src/core/cache.rs:76-79 | Nothing for a time before the epoch; otherwise the whole seconds since the epoch, rounded down |
| Cache.Fingerprint | src-tauri/src/core/cache.rs:72-85 | An error exactly when the metadata cannot be read |
| Cache.FingerprintTextInjective | src-tauri/src/core/cache.rs:80-84 | Equal fingerprint texts have equal size and equal mtime |
| Cache.FingerprintDependsOnSizeAndSeconds | src-tauri/src/core/cache.rs:72-85 | Two fingerprints are equal exactly when the sizes and the whole-second mtimes are |
| Cache.FingerprintMtimeSpec | src-tauri/src/core/cache.rs:75-79 | A missing modified time and a time before the epoch count as 0. Otherwise the value is the whole seconds since the epoch |
| Cache.U64AsI64 | src-tauri/src/core/cache.rs:92 | The `as i64` cast of a u64 keeps values below 2^63 and wraps larger ones by 2^64 |
| Cache.FileMtimeSpec | src-tauri/src/core/cache.rs:87-94 | 0 when the metadata or the modified time is missing, or the time is before the epoch. Otherwise the whole seconds, always within i64 |
| Scanner.LastDot | src-tauri/src/core/scanner.rs:140 | The position of the last dot in a name, or nothing when there is no dot |
| Scanner.ExtensionSplitsName | src-tauri/src/core/scanner.rs:54-57 | When there is an extension, the name is the non-empty stem, a dot, and the extension, and the extension contains no dot |
| Scanner.NoDotNoExtension | src-tauri/src/core/scanner.rs:54-57 | A name without a dot has no extension, and its stem is the whole name |
| Scanner.IsSupportedSpec | src-tauri/src/core/scanner.rs:139-148 | A name with an extension is supported exactly when the ASCII-lowercased extension is jpg, jpeg, png or heic. A name without a dot is not supported |
| Scanner.ClassifySpec | src-tauri/src/core/scanner.rs:34-109 | A walk entry gives an item exactly when the walk reached it, it is a regular file and its name is supported. The item records the path and the current mtime. It is matched exactly when its record names a species, and then it has the path, the file name and an index in range |
| Scanner.ClassifyReusesCache | src-tauri/src/core/scanner.rs:62-87 | With a record of equal mtime, a latin name still in the index gives that matched index and the record unchanged. A record without a species gives an unmatched item with the record unchanged |
| Scanner.ClassifyRunsMatcher | src-tauri/src/core/scanner.rs:89-108 | With no record, a different mtime, or a latin name no longer indexed, the matcher runs on the stem (or the file name). The new record stores that entry's latin, or nothing |
| Scanner.RescanStable | src-tauri/src/core/scanner.rs:62-108 | With unique latin names, classifying a file again with its own cold-scan record gives the cold-scan result |
| Scanner.SaturatingSub | src-tauri/src/core/scanner.rs:126 | `saturating_sub`: the difference when it is not negative, 0 otherwise |
| Scanner.Aggregate | src-tauri/src/core/scanner.rs:112-136 | The loop keeps every item's record in order and every matched photo in order. It counts all items and the matched ones, and unmatched is the rest |
| Scanner.ScanPaths | src-tauri/src/core/scanner.rs:17-137 | The scan output is the aggregation of the per-file decisions over the walk |
| Scanner.RecordsOfItems | src-tauri/src/core/scanner.rs:117-119 | Every accepted file yields exactly one cache record, in item order |
| Scanner.MatchedPlusUnmatched | src-tauri/src/core/scanner.rs:117-126 | Matched and unmatched items together are all the items |
| Scanner.CountsIgnoreWalkOrder | src-tauri/src/core/scanner.rs:117-126 | Visiting the same files in another order gives the same items, matches and records up to order, and so the same three counts |
| Scanner.TotalIsAccepted | src-tauri/src/core/scanner.rs:34-110 | The total is the number of accepted walk entries |
| Scanner.MatchesInRange | src-tauri/src/core/scanner.rs:89-100 | Every matched photo's species index is a valid entry index |
| Text.Trim | src-tauri/src/core/ioc.rs:87 | `str::trim`: the result has no surrounding whitespace and is no longer than the input. It is empty exactly when the input was all whitespace |
| Text.TrimIsWindow | src-tauri/src/core/ioc.rs:87 | `str::trim` returns the input without its surrounding whitespace: the result is the part of the input between a blank prefix and a blank suffix |
| Text.ToLower | src-tauri/src/core/matcher.rs:58 | Lowercasing keeps the length, lowercases each character, and leaves no upper-case ASCII letter |
| Text.ToLowerIdempotent | src-tauri/src/core/scanner.rs:65 | Lowercasing twice is lowercasing once |
| Text.BelowTotal | src-tauri/src/core/tree.rs:44 | Name comparison is total on distinct names |
| Text.BelowTransitive | src-tauri/src/core/tree.rs:44 | Name comparison is transitive |
| Text.DigitsRoundTrip | src-tauri/src/core/cache.rs:80-84 | Reading back the decimal digits of a number gives the number |
| Sorting.SortBy | src-tauri/src/core/tree.rs:44 | `sort_by` on a key is a permutation of its input |
| Sorting.SortBySorted | src-tauri/src/core/tree.rs:44 | The result of `sort_by` is in ascending key order |
| Sorting.SortByStrict | src-tauri/src/core/tree.rs:14-32 | With distinct keys the result is strictly ascending |
| Tree.GenusNameSpec | src-tauri/src/core/tree.rs:49-55 | "Unknown" for an all-whitespace latin name. Otherwise the first whitespace-delimited token |
| Tree.GenusNameOfTrimmed | src-tauri/src/core/tree.rs:49-55 | For a trimmed non-empty latin name, the genus is its non-empty longest whitespace-free prefix |
| Tree.PushOrderOk | src-tauri/src/core/tree.rs:14-37 | One loop step keeps every level a non-empty table with distinct keys |
| Tree.PushOrderLeaves | src-tauri/src/core/tree.rs:14-37 | One loop step adds exactly one photo, under that entry's order, family, genus and latin, and changes nothing else |
| Tree.PushOrderChinese | src-tauri/src/core/tree.rs:28-32 | A species' Chinese name is set when the species is created and kept by later pushes |
| Tree.AggregateSpec | src-tauri/src/core/tree.rs:10-38 | After the loop, every level has distinct keys and no empty group. The photos are exactly the matches, each under its entry's path. The result is empty exactly when there are no matches |
| Tree.SpeciesNodeOfOk | src-tauri/src/core/tree.rs:125-136 | A species node's photos are sorted by file name and its count is their number |
| Tree.GenusNodeOfOk | src-tauri/src/core/tree.rs:102-117 | A genus node's species are strictly ascending by latin, and its count is the sum of theirs |
| Tree.FamilyNodeOfOk | src-tauri/src/core/tree.rs:84-95 | A family node's genera are strictly ascending by name, and its count is the sum of theirs |
| Tree.OrderNodeOfOk | src-tauri/src/core/tree.rs:62-77 | An order node's families are strictly ascending by name, and its count is the sum of theirs |
| Tree.TreeOfOk | src-tauri/src/core/tree.rs:40-46 | The orders are strictly ascending by name, and every node below is well formed |
| Tree.SpeciesNodeOfLeaves | src-tauri/src/core/tree.rs:125-136 | Sorting a species' photos loses and adds none |
| Tree.GenusNodeOfLeaves | src-tauri/src/core/tree.rs:102-117 | Converting a genus loses and adds no photo |
| Tree.FamilyNodeOfLeaves | src-tauri/src/core/tree.rs:84-95 | Converting a family loses and adds no photo |
| Tree.OrderNodeOfLeaves | src-tauri/src/core/tree.rs:62-77 | Converting an order loses and adds no photo |
| Tree.TreeOfLeaves | src-tauri/src/core/tree.rs:40-46 | Converting all orders loses and adds no photo |
| Tree.GenusCountIsLeaves | src-tauri/src/core/tree.rs:110 | A genus count is the number of photos under it |
| Tree.FamilyCountIsLeaves | src-tauri/src/core/tree.rs:92 | A family count is the number of photos under it |
| Tree.OrderCountIsLeaves | src-tauri/src/core/tree.rs:70 | An order count is the number of photos under it |
| Tree.TreeTotalIsLeaves | src-tauri/src/core/tree.rs:40-46 | The sum of the order counts is the number of photos in the tree |
| Tree.FirstChineseSpec | src-tauri/src/core/tree.rs:28-32 | The recorded Chinese name of a path is that of the first match with that path, and there is none exactly when no match has that path |
| Tree.AggregateChinese | src-tauri/src/core/tree.rs:10-38 | After the loop, a species' Chinese name is the one of the entry behind the first match that created it |
| Tree.TreeOfChinese | src-tauri/src/core/tree.rs:62-136 | Converting and sorting keeps each species' Chinese name under the same path |
| Tree.BuildTreeChinese | src-tauri/src/core/tree.rs:7-47 | In the final tree, a species' Chinese name comes from the first match that created that species |
| Tree.BuildTreeSpec | src-tauri/src/core/tree.rs:7-47 | The tree is well formed (sorted, strictly ascending siblings, counts summed, no empty node). Its photos are exactly the matches, each under its entry's path. The order counts sum to the number of matches. There are no orders exactly when there are no matches |
| Tree.BuildTree | src-tauri/src/core/tree.rs:7-47 | The grouping loop, the conversion and the final sort give exactly the specified tree, which is well formed and totals the number of matches |
| Pipeline.ScanAndTree | src-tauri/src/core/mod.rs:26-35 | Builds the matcher, scans the walk and builds the tree. The tree, the counts and the records are those of the scan with a matcher built for the entries. The tree is well formed and totals the matched files, and there is one record per scanned file |
| Pipeline.ScanAndBuild | src-tauri/src/core/mod.rs:18-44 | The steps run in order and the first failure is the answer: table load, fingerprint, cache load, then cache save. On success the tree is `build_tree` of the scan's matched photos, the stats are the scan's counts, and the cache written holds the scan's records, all from scanning the walk with the matcher built for the loaded table and cache. The answer also reports every table species, the tree is well formed and totals the matched files, total = matched + unmatched, and the record written is version 1 with the current fingerprint |

## Left out

- Unicode lowercasing: `to_lowercase` is modelled as ASCII lowercasing. Full Unicode lowercasing can change a string's length, and that is not captured.
- Opening the workbook with calamine is an input: the model is given the opened workbook, or its absence on failure. The text calamine renders for Float, DateTime and Duration cells (ioc.rs:88-95) is an opaque string in the cell.
- File-system metadata, the clock (`SystemTime`) and the cache file's contents are inputs. So are the outcomes of creating directories, serializing and writing.
- serde_json: parsing a stored cache is modelled as success with the stored record, or a parse failure. Serialization is the identity on the record. The fingerprint text is `{"mtime":M,"size":N}`, and only its dependence on the two numbers is stated.
- Directory walking (walkdir, symbolic links not followed) and rayon's `par_bridge`: the walk is an arbitrary sequence of candidate entries. The order the results arrive in is any order, so only the order-independence of the results is proved (`Scanner.CountsIgnoreWalkOrder`).
- `path_string` and `to_string_lossy`: paths and file names are already strings. Lossy conversion of non-UTF-8 names is not modelled.
- The aho-corasick automaton: only its result is specified (`Matcher.Automaton.Find`). Its construction is not modelled.
- Matcher.AutomatonOf: assumes that the build succeeds whenever the pattern list is non-empty. `AhoCorasick::new` can fail, for example when the patterns exceed the builder's limits. `.ok()` would then leave that side with no automaton, so it never matches. That failure is not modelled.
- Integer widths: counts and indices are unbounded, so `usize` overflow is not modelled. A u64 second count beyond 2^64 is not modelled either; the cast to i64 is (`Cache.U64AsI64`).
- Sorting.SortBy: `sort_by` is a function on values (insertion sort), not an in-place sort of the vector. The stability of the photo sort (equal file names keep their insertion order) is not stated.
- HashMap: a table the code fills is a list with distinct keys in first-insertion order. Hash iteration order is not modelled, because every level is sorted by its distinct key before it can be observed.
- `main.rs` (the Tauri command shell), `locator.rs` (opens photos in other programs), the React UI and the build scripts are not part of this model.
