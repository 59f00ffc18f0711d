/**
 * The classification cache: a snapshot of every file's last classification, keyed by path and
 * tied to the reference table it was computed against by a fingerprint of that table's file.
 *
 * The cache file is modelled by what a read of it yields (absent, unreadable, unparsable, or the
 * decoded record); serialization is abstracted as the identity on `CacheFile`.
 */
module Cache {
  import opened Wrappers
  import opened Text
  import opened Types

  /** The in-memory index: path to the last record stored for it. */
  datatype CacheIndex = CacheIndex(entries: map<string, CacheEntry>)
  {
    /** `CacheIndex::get` */
    function Get(path: string): Option<CacheEntry>
    {
      if path in entries then Some(entries[path]) else None
    }
  }

  /** What reading the cache file yields. */
  datatype CacheFileState = Absent | Unreadable | Unparsable | Stored(file: CacheFile)

  datatype CacheError =
    | ReadFailed
    | ParseFailed
    | CreateDirFailed
    | SerializeFailed
    | WriteFailed
    | MetadataFailed

  /** Inserting the records one after another into a map, as `load_cache`'s loop does. */
  function IndexOf(es: seq<CacheEntry>): map<string, CacheEntry>
  {
    if es == [] then map[] else IndexOf(es[..|es| - 1])[es[|es| - 1].path := es[|es| - 1]]
  }

  /** Record `i` is the last one in `es` with its path. */
  predicate LastWithPath(es: seq<CacheEntry>, i: nat)
  {
    i < |es| && forall j :: i < j < |es| ==> es[j].path != es[i].path
  }

  /** The index's keys are exactly the stored paths. */
  lemma {:induction false} IndexOfKeys(es: seq<CacheEntry>)
    ensures forall p :: p in IndexOf(es) <==> exists i :: 0 <= i < |es| && es[i].path == p
  {
    if es != [] {
      var init, last := es[..|es| - 1], es[|es| - 1];
      IndexOfKeys(init);
      forall p | p in IndexOf(es)
        ensures exists i :: 0 <= i < |es| && es[i].path == p
      {
        if p != last.path {
          assert p in IndexOf(init);
          var i :| 0 <= i < |init| && init[i].path == p;
          assert es[i].path == p;
        }
      }
      forall p | exists i :: 0 <= i < |es| && es[i].path == p
        ensures p in IndexOf(es)
      {
        var i :| 0 <= i < |es| && es[i].path == p;
        if i < |init| {
          assert init[i].path == p;
        }
      }
    }
  }

  /** Every key maps to the last record stored with that path. */
  lemma {:induction false} IndexOfLast(es: seq<CacheEntry>)
    ensures forall i :: 0 <= i < |es| && LastWithPath(es, i) ==> es[i].path in IndexOf(es) && IndexOf(es)[es[i].path] == es[i]
  {
    if es != [] {
      var init := es[..|es| - 1];
      IndexOfLast(init);
      forall i | 0 <= i < |es| - 1 && LastWithPath(es, i)
        ensures es[i].path in IndexOf(es) && IndexOf(es)[es[i].path] == es[i]
      {
        assert es[|es| - 1].path != es[i].path;
        assert LastWithPath(init, i);
      }
    }
  }

  /** Every key maps to a record with that path. */
  lemma {:induction false} IndexOfPaths(es: seq<CacheEntry>)
    ensures forall p :: p in IndexOf(es) ==> IndexOf(es)[p].path == p
  {
    if es != [] {
      IndexOfPaths(es[..|es| - 1]);
    }
  }

  /** What `load_cache` returns for a given state of the cache file and the current fingerprint. */
  function Loaded(state: CacheFileState, fingerprint: string): Result<CacheIndex, CacheError>
  {
    match state
    case Absent => Ok(CacheIndex(map[]))
    case Unreadable => Err(ReadFailed)
    case Unparsable => Err(ParseFailed)
    case Stored(file) =>
      if file.iocFingerprint != fingerprint then Ok(CacheIndex(map[]))
      else Ok(CacheIndex(IndexOf(file.entries)))
  }

  /** `load_cache` */
  method LoadCache(state: CacheFileState, fingerprint: string) returns (r: Result<CacheIndex, CacheError>)
    ensures r == Loaded(state, fingerprint)
  {
    if state.Absent? {
      return Ok(CacheIndex(map[]));
    }
    if state.Unreadable? {
      return Err(ReadFailed);
    }
    if state.Unparsable? {
      return Err(ParseFailed);
    }
    var cache := state.file;
    if cache.iocFingerprint != fingerprint {
      return Ok(CacheIndex(map[]));
    }
    var entries: map<string, CacheEntry> := map[];
    for i := 0 to |cache.entries|
      invariant entries == IndexOf(cache.entries[..i])
    {
      var entry := cache.entries[i];
      assert cache.entries[..i + 1][..i] == cache.entries[..i];
      entries := entries[entry.path := entry];
    }
    assert cache.entries[..|cache.entries|] == cache.entries;
    return Ok(CacheIndex(entries));
  }

  /**
   * What `load_cache` promises: a missing file gives an empty index, read and parse failures
   * are errors, a stale fingerprint empties the index whatever was stored, and a current one
   * indexes every stored record by path, the last record for a path winning.
   */
  lemma LoadedSpec(state: CacheFileState, fingerprint: string, path: string)
    ensures state.Absent? ==> Loaded(state, fingerprint) == Ok(CacheIndex(map[]))
    ensures state.Unreadable? ==> Loaded(state, fingerprint) == Err(ReadFailed)
    ensures state.Unparsable? ==> Loaded(state, fingerprint) == Err(ParseFailed)
    ensures state.Stored? && state.file.iocFingerprint != fingerprint ==>
      Loaded(state, fingerprint).Ok? && Loaded(state, fingerprint).value.Get(path).None?
    ensures state.Stored? && state.file.iocFingerprint == fingerprint ==>
      Loaded(state, fingerprint).Ok? &&
      (Loaded(state, fingerprint).value.Get(path).Some? <==>
        exists i :: 0 <= i < |state.file.entries| && state.file.entries[i].path == path)
    ensures state.Stored? && state.file.iocFingerprint == fingerprint ==>
      forall i :: 0 <= i < |state.file.entries| && LastWithPath(state.file.entries, i) && state.file.entries[i].path == path ==>
        Loaded(state, fingerprint).value.Get(path) == Some(state.file.entries[i])
  {
    if state.Stored? {
      IndexOfKeys(state.file.entries);
      IndexOfLast(state.file.entries);
    }
  }

  /** The outcome of each filesystem step `save_cache` takes. */
  datatype SaveEnv = SaveEnv(hasParent: bool, createDirOk: bool, serializeOk: bool, writeOk: bool)

  /**
   * `save_cache`: the record written (version 1, the given fingerprint, the entries in the given
   * order), or the first step that failed.
   */
  function SaveCache(fingerprint: string, entries: seq<CacheEntry>, env: SaveEnv): (r: Result<CacheFile, CacheError>)
    ensures r.Ok? <==> (!env.hasParent || env.createDirOk) && env.serializeOk && env.writeOk
    ensures r.Ok? ==> r.value.version == 1 && r.value.iocFingerprint == fingerprint && r.value.entries == entries
    ensures env.hasParent && !env.createDirOk ==> r == Err(CreateDirFailed)
    ensures (!env.hasParent || env.createDirOk) && !env.serializeOk ==> r == Err(SerializeFailed)
    ensures (!env.hasParent || env.createDirOk) && env.serializeOk && !env.writeOk ==> r == Err(WriteFailed)
  {
    if env.hasParent && !env.createDirOk then Err(CreateDirFailed)
    else
      var cache := CacheFile(1, fingerprint, entries);
      if !env.serializeOk then Err(SerializeFailed)
      else if !env.writeOk then Err(WriteFailed)
      else Ok(cache)
  }

  /**
   * Save then load with the same fingerprint: `get(p)` finds exactly the saved paths and returns
   * the last saved record for each.
   */
  lemma SaveThenLoad(fingerprint: string, entries: seq<CacheEntry>, env: SaveEnv, path: string, i: nat)
    requires SaveCache(fingerprint, entries, env).Ok?
    requires LastWithPath(entries, i) && entries[i].path == path
    ensures Loaded(Stored(SaveCache(fingerprint, entries, env).value), fingerprint).Ok?
    ensures Loaded(Stored(SaveCache(fingerprint, entries, env).value), fingerprint).value.Get(path) == Some(entries[i])
  {
    LoadedSpec(Stored(SaveCache(fingerprint, entries, env).value), fingerprint, path);
  }

  /** A path that was not saved is not found after the round trip. */
  lemma SaveThenLoadMissing(fingerprint: string, entries: seq<CacheEntry>, env: SaveEnv, path: string)
    requires SaveCache(fingerprint, entries, env).Ok?
    requires forall i :: 0 <= i < |entries| ==> entries[i].path != path
    ensures Loaded(Stored(SaveCache(fingerprint, entries, env).value), fingerprint) == Ok(CacheIndex(IndexOf(entries)))
    ensures Loaded(Stored(SaveCache(fingerprint, entries, env).value), fingerprint).value.Get(path).None?
  {
    LoadedSpec(Stored(SaveCache(fingerprint, entries, env).value), fingerprint, path);
  }

  // ---------------------------------------------------------------------------------------------
  // Time and fingerprints.

  const NanosPerSecond: nat := 1_000_000_000

  /** `SystemTime::UNIX_EPOCH` */
  const Epoch := SystemTime(0)

  /**
   * `t.duration_since(UNIX_EPOCH)` in whole seconds (`as_secs`), or `None` when `t` is before
   * the epoch.
   */
  function SecondsSinceEpoch(t: SystemTime): (r: Option<nat>)
    ensures r.None? <==> t.nanosSinceEpoch < 0
    ensures r.Some? ==> r.value * NanosPerSecond <= t.nanosSinceEpoch < (r.value + 1) * NanosPerSecond
  {
    if t.nanosSinceEpoch < 0 then None else Some(t.nanosSinceEpoch / NanosPerSecond)
  }

  /** The mtime `fingerprint` uses: a missing mtime counts as the epoch, one before it as 0. */
  function FingerprintMtime(meta: Metadata): nat
  {
    SecondsSinceEpoch(meta.modified.GetOr(Epoch)).GetOr(0)
  }

  /** The compact JSON text of `{"size": size, "mtime": mtime}` (keys in serde_json's sorted order). */
  function FingerprintText(size: nat, mtime: nat): string
  {
    "{\"mtime\":" + NatToString(mtime) + ",\"size\":" + NatToString(size) + "}"
  }

  /** `fingerprint`, given what `fs::metadata` returned (`None` when it failed). */
  function Fingerprint(meta: Option<Metadata>): (r: Result<string, CacheError>)
    ensures r.Err? <==> meta.None?
    ensures r.Err? ==> r.error == MetadataFailed
  {
    match meta
    case None => Err(MetadataFailed)
    case Some(m) => Ok(FingerprintText(m.len, FingerprintMtime(m)))
  }

  /** Two fingerprint texts are equal only when both numbers are. */
  lemma FingerprintTextInjective(a: nat, b: nat, c: nat, d: nat)
    requires FingerprintText(a, b) == FingerprintText(c, d)
    ensures a == c && b == d
  {
    var t := FingerprintText(a, b);
    var sb, sd := NatToString(b), NatToString(d);
    var sa, sc := NatToString(a), NatToString(c);
    var head, mid := "{\"mtime\":", ",\"size\":";
    assert |head| == 9 && |mid| == 8;
    assert t == head + sb + mid + sa + "}";
    assert t == head + sd + mid + sc + "}";
    assert t[9 + |sb|] == ',' && t[9 + |sd|] == ',';
    assert forall k :: 9 <= k < 9 + |sb| ==> IsDigit(t[k]);
    assert forall k :: 9 <= k < 9 + |sd| ==> IsDigit(t[k]);
    assert |sb| == |sd|;
    assert sb == t[9..9 + |sb|] == sd;
    assert sa == t[17 + |sb|..|t| - 1] == sc;
    NatToStringInjective(b, d);
    NatToStringInjective(a, c);
  }

  /**
   * The fingerprint depends on the file's size and whole-second mtime and on nothing else:
   * two metadata records fingerprint alike exactly when those agree.
   */
  lemma FingerprintDependsOnSizeAndSeconds(m1: Metadata, m2: Metadata)
    ensures Fingerprint(Some(m1)) == Fingerprint(Some(m2)) <==>
      m1.len == m2.len && FingerprintMtime(m1) == FingerprintMtime(m2)
  {
    if Fingerprint(Some(m1)) == Fingerprint(Some(m2)) {
      FingerprintTextInjective(m1.len, FingerprintMtime(m1), m2.len, FingerprintMtime(m2));
    }
  }

  /** A missing mtime fingerprints like the epoch, and a sub-second change is invisible. */
  lemma FingerprintMtimeSpec(meta: Metadata)
    ensures meta.modified.None? ==> FingerprintMtime(meta) == 0
    ensures meta.modified.Some? && meta.modified.value.nanosSinceEpoch < 0 ==> FingerprintMtime(meta) == 0
    ensures meta.modified.Some? && meta.modified.value.nanosSinceEpoch >= 0 ==>
      FingerprintMtime(meta) * NanosPerSecond <= meta.modified.value.nanosSinceEpoch < (FingerprintMtime(meta) + 1) * NanosPerSecond
  {
  }

  const TwoTo63: int := 0x8000_0000_0000_0000
  const TwoTo64: int := 0x1_0000_0000_0000_0000

  /** `u64 as i64`: values from 2^63 on wrap to negative numbers. */
  function U64AsI64(n: nat): (r: int)
    requires n < TwoTo64
    ensures -TwoTo63 <= r < TwoTo63
    ensures r == n || r == n - TwoTo64
    ensures n < TwoTo63 ==> r == n
  {
    if n < TwoTo63 then n else n - TwoTo64
  }

  /**
   * `file_mtime`, given what `fs::metadata` returned: whole seconds since the epoch as `i64`,
   * or 0 when the metadata or the mtime is unavailable or the mtime is before the epoch.
   * `Duration::as_secs` is a `u64`; seconds past its range do not occur and are reduced modulo 2^64.
   */
  function FileMtime(meta: Option<Metadata>): int
  {
    if meta.None? || meta.value.modified.None? then 0
    else match SecondsSinceEpoch(meta.value.modified.value)
      case None => 0
      case Some(secs) => U64AsI64(secs % TwoTo64)
  }

  /**
   * `file_mtime` is 0 whenever the time is unavailable or before the epoch, and otherwise agrees
   * with the whole-second mtime `fingerprint` uses while that fits in an `i64`.
   */
  lemma FileMtimeSpec(meta: Option<Metadata>)
    ensures meta.None? ==> FileMtime(meta) == 0
    ensures meta.Some? && meta.value.modified.None? ==> FileMtime(meta) == 0
    ensures meta.Some? && meta.value.modified.Some? && meta.value.modified.value.nanosSinceEpoch < 0 ==> FileMtime(meta) == 0
    ensures meta.Some? && meta.value.modified.Some? && FingerprintMtime(meta.value) < TwoTo63 ==>
      FileMtime(meta) == FingerprintMtime(meta.value)
    ensures -TwoTo63 <= FileMtime(meta) < TwoTo63
  {
  }
}
