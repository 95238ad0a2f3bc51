/** The persistent APK metadata cache (wa/utils/android.py: ApkInfoCache and
    get_cacheable_apk_info) as an explicit state machine. The cache file is
    an abstract pair of a stamp (what `os.stat` reports, compared only for
    equality) and the mapping it holds; every operation returns the new
    in-memory state, the new file and its outcome. */
module ApkCache {
  import opened Wrappers
  import opened ApkInfos
  import Text
  import Values

  /** What `os.stat` reports for the cache file. */
  type Stamp = int

  /** The persisted cache file. */
  datatype CacheFile = Absent | Present(stamp: Stamp, content: map<string, Pod>)

  /** The in-memory part of an `ApkInfoCache`: the loaded mapping and the
      stamp of the file when it was last loaded or written. */
  datatype Cache = Cache(entries: map<string, Pod>, lastModified: Option<Stamp>)

  datatype CacheError =
    | AlreadyCached(apkPath: Option<string>)   // the ValueError of `store`, naming the record's `path`
    | BadPod(error: PodError)                  // `from_pod` raising on a damaged entry
    | FileNotFound(path: string)               // `os.stat` raising on a missing APK

  /** The state after an operation, and what it returned or raised. */
  datatype Step<T> = Step(cache: Cache, file: CacheFile, out: Result<T, CacheError>)

  /** `_update_cache`: reload the mapping when the file exists and its stamp
      differs from the one last seen. */
  function UpdateCache(c: Cache, file: CacheFile): (c': Cache)
    ensures file.Absent? ==> c' == c
    ensures file.Present? ==> c'.lastModified == Some(file.stamp)
    ensures c' != c ==> file.Present? && c.lastModified != Some(file.stamp) && c'.entries == file.content
  {
    match file
    case Absent => c
    case Present(stamp, content) =>
      if c.lastModified != Some(stamp) then Cache(content, Some(stamp)) else c
  }

  /** `ApkInfoCache.__init__`: empty, then synchronised with the file. */
  function NewCache(file: CacheFile): (c: Cache)
    ensures file.Absent? ==> c.entries == map[] && c.lastModified.None?
    ensures file.Present? ==> c.entries == file.content && c.lastModified == Some(file.stamp)
  {
    UpdateCache(Cache(map[], None), file)
  }

  /** `store(apk_info, apk_id, overwrite)`. `written` is the stamp the file
      has after the atomic rewrite. */
  function Store(c: Cache, file: CacheFile, info: ApkInfo, key: string, overwrite: bool, written: Stamp): (s: Step<()>)
    ensures s.out.Err? <==> key in UpdateCache(c, file).entries && !overwrite
    ensures s.out.Err? ==> s.out.error == AlreadyCached(info.path) && s.cache == UpdateCache(c, file) && s.file == file
    ensures s.out.Ok? ==>
      && s.cache.entries.Keys == UpdateCache(c, file).entries.Keys + {key}
      && s.cache.entries[key] == ToPod(info)
      && s.file == Present(written, s.cache.entries)
      && s.cache.lastModified == Some(written)
  {
    var synced := UpdateCache(c, file);
    if key in synced.entries && !overwrite then
      Step(synced, file, Err(AlreadyCached(info.path)))
    else
      var entries := synced.entries[key := ToPod(info)];
      Step(Cache(entries, Some(written)), Present(written, entries), Ok(()))
  }

  /** `get_info(key)`: `None` when the key is absent or its pod is empty. */
  function GetInfo(c: Cache, file: CacheFile, key: string): (s: Step<Option<ApkInfo>>)
    ensures s.cache == UpdateCache(c, file) && s.file == file
    ensures s.out.Ok? && s.out.value.Some? ==> key in s.cache.entries
    ensures key !in s.cache.entries || |s.cache.entries[key]| == 0 ==> s.out == Ok(None)
    ensures key in s.cache.entries && |s.cache.entries[key]| > 0 ==>
      var read := FromPod(s.cache.entries[key]);
      && (read.Ok? ==> s.out == Ok(Some(read.value)))
      && (read.Err? ==> s.out == Err(BadPod(read.error)))
  {
    var synced := UpdateCache(c, file);
    if key in synced.entries && |synced.entries[key]| > 0 then
      match FromPod(synced.entries[key])
      case Ok(info) => Step(synced, file, Ok(Some(info)))
      case Err(e) => Step(synced, file, Err(BadPod(e)))
    else Step(synced, file, Ok(None))
  }

  // ---------------------------------------------------------------------
  // Properties of the cache

  /** Synchronising twice is synchronising once. */
  lemma UpdateCacheIdempotent(c: Cache, file: CacheFile)
    ensures UpdateCache(UpdateCache(c, file), file) == UpdateCache(c, file)
  {}

  /** After a successful `store`, the stamp in memory is the file's, so the
      next `get_info` does not reload and returns the stored record. */
  lemma StoreThenGet(c: Cache, file: CacheFile, info: ApkInfo, key: string, overwrite: bool, written: Stamp)
    requires Store(c, file, info, key, overwrite, written).out.Ok?
    ensures var s := Store(c, file, info, key, overwrite, written);
      GetInfo(s.cache, s.file, key) == Step(s.cache, s.file, Ok(Some(info)))
  {
    FromPodToPod(info);
  }

  /** `store` with `overwrite` never fails; storing again under the same key
      replaces the record, and the replacement is what `get_info` returns. */
  lemma OverwriteReplaces(c: Cache, file: CacheFile, first: ApkInfo, second: ApkInfo, key: string, w1: Stamp, w2: Stamp)
    ensures Store(c, file, first, key, true, w1).out.Ok?
    ensures var s1 := Store(c, file, first, key, true, w1);
      var s2 := Store(s1.cache, s1.file, second, key, true, w2);
      s2.out.Ok? && GetInfo(s2.cache, s2.file, key).out == Ok(Some(second))
  {
    var s1 := Store(c, file, first, key, true, w1);
    StoreThenGet(s1.cache, s1.file, second, key, true, w2);
  }

  /** Without `overwrite`, storing a key already present (after the re-sync)
      raises and leaves the mapping and the file as they were. */
  lemma DuplicateRejected(c: Cache, file: CacheFile, info: ApkInfo, key: string, written: Stamp)
    requires key in UpdateCache(c, file).entries
    ensures var s := Store(c, file, info, key, false, written);
      s.out == Err(AlreadyCached(info.path))
      && s.cache.entries == UpdateCache(c, file).entries
      && s.file == file
  {}

  /** `store` changes the record of its own key only. */
  lemma StoreKeepsOtherKeys(c: Cache, file: CacheFile, info: ApkInfo, key: string, other: string, overwrite: bool, written: Stamp)
    requires other != key
    ensures var s := Store(c, file, info, key, overwrite, written);
      GetInfo(s.cache, s.file, other).out == GetInfo(c, file, other).out
  {}

  /** A new cache instance opened on the file a `store` wrote sees the
      stored record. */
  lemma StoreVisibleToNewInstance(c: Cache, file: CacheFile, info: ApkInfo, key: string, overwrite: bool, written: Stamp)
    requires Store(c, file, info, key, overwrite, written).out.Ok?
    ensures var s := Store(c, file, info, key, overwrite, written);
      GetInfo(NewCache(s.file), s.file, key).out == Ok(Some(info))
  {
    FromPodToPod(info);
  }

  // ---------------------------------------------------------------------
  // get_cacheable_apk_info

  /** The result of a metadata lookup; `extracted` tells whether the APK
      itself had to be introspected. */
  datatype Lookup = Lookup(cache: Cache, file: CacheFile, out: Result<Option<ApkInfo>, CacheError>, extracted: bool)

  /** The cache key of an APK: `"<path>-<mtime>"`. */
  function IdentityKey(path: string, mtime: string): (key: string)
    ensures |key| == |path| + 1 + |mtime|
    ensures key[..|path|] == path && key[|path|] == '-' && key[|path| + 1..] == mtime
  {
    path + "-" + mtime
  }

  /** `get_cacheable_apk_info(path)`. `mtime` is the rendering of the APK's
      modification time, `None` when `os.stat` fails; `extract` is the
      metadata extraction; `written` the stamp of the cache file after a
      store. */
  function GetCacheableApkInfo(path: Option<string>, mtime: Option<string>, c: Cache, file: CacheFile,
                               extract: string -> ApkInfo, written: Stamp): (r: Lookup)
    ensures path.None? || path == Some("") ==> r == Lookup(c, file, Ok(None), false)
    ensures r.out.Ok? && Values.Given(path) ==> r.out.value.Some?
    ensures r.extracted ==> r.out == Ok(Some(extract(path.value)))
    ensures Values.Given(path) && mtime.None? ==>
      r == Lookup(c, file, Err(FileNotFound(path.value)), false)
    ensures Values.Given(path) && mtime.Some? ==>
      var key := IdentityKey(path.value, mtime.value);
      var miss := GetInfo(c, file, key).out == Ok(None);
      && (r.extracted <==> miss)
      && (miss ==>
            && r.out == Ok(Some(extract(path.value)))
            && key in r.cache.entries
            && r.cache.entries[key] == ToPod(extract(path.value))
            && r.file == Present(written, r.cache.entries))
  {
    if path.None? || path.value == "" then Lookup(c, file, Ok(None), false)
    else if mtime.None? then Lookup(c, file, Err(FileNotFound(path.value)), false)
    else
      var key := IdentityKey(path.value, mtime.value);
      var g := GetInfo(c, file, key);
      match g.out
      case Err(e) => Lookup(g.cache, g.file, Err(e), false)
      case Ok(Some(info)) => Lookup(g.cache, g.file, Ok(Some(info)), false)
      case Ok(None) =>
        var info := extract(path.value);
        var s := Store(g.cache, g.file, info, key, true, written);
        Lookup(s.cache, s.file, Ok(Some(info)), true)
  }

  /** A cached record is returned as it is, without extraction. */
  lemma CacheHitSkipsExtraction(path: string, mtime: string, c: Cache, file: CacheFile,
                                extract: string -> ApkInfo, written: Stamp, cached: ApkInfo)
    requires path != ""
    requires var synced := UpdateCache(c, file);
      IdentityKey(path, mtime) in synced.entries
      && synced.entries[IdentityKey(path, mtime)] == ToPod(cached)
    ensures var r := GetCacheableApkInfo(Some(path), Some(mtime), c, file, extract, written);
      r.out == Ok(Some(cached)) && !r.extracted
  {
    FromPodToPod(cached);
  }

  /** On a miss the APK is introspected and its record stored with
      `overwrite`, so a cache opened afresh on the written file finds it. */
  lemma CacheMissExtractsAndStores(path: string, mtime: string, c: Cache, file: CacheFile,
                                   extract: string -> ApkInfo, written: Stamp)
    requires path != ""
    requires GetInfo(c, file, IdentityKey(path, mtime)).out == Ok(None)
    ensures var r := GetCacheableApkInfo(Some(path), Some(mtime), c, file, extract, written);
      && r.extracted
      && r.out == Ok(Some(extract(path)))
      && GetInfo(NewCache(r.file), r.file, IdentityKey(path, mtime)).out == Ok(Some(extract(path)))
  {
    var g := GetInfo(c, file, IdentityKey(path, mtime));
    StoreVisibleToNewInstance(g.cache, g.file, extract(path), IdentityKey(path, mtime), true, written);
  }

  /** Asking twice for an unchanged APK: whatever the first call did, the
      second finds the record in the cache, returns the same metadata and
      extracts nothing. */
  lemma SecondLookupHits(path: string, mtime: string, c: Cache, file: CacheFile,
                         extract: string -> ApkInfo, w1: Stamp, w2: Stamp)
    requires path != ""
    requires GetCacheableApkInfo(Some(path), Some(mtime), c, file, extract, w1).out.Ok?
    ensures var r1 := GetCacheableApkInfo(Some(path), Some(mtime), c, file, extract, w1);
      var r2 := GetCacheableApkInfo(Some(path), Some(mtime), r1.cache, r1.file, extract, w2);
      r2.out == r1.out && !r2.extracted && r2.cache == r1.cache && r2.file == r1.file
  {
    var key := IdentityKey(path, mtime);
    var r1 := GetCacheableApkInfo(Some(path), Some(mtime), c, file, extract, w1);
    var g := GetInfo(c, file, key);
    UpdateCacheIdempotent(c, file);
    if g.out.value.None? {
      StoreThenGet(g.cache, g.file, extract(path), key, true, w1);
    }
  }

  /** The identity key determines the path and the modification time, as
      long as the rendering of the time has no `-`. */
  lemma IdentityKeyInjective(p1: string, m1: string, p2: string, m2: string)
    requires '-' !in m1 && '-' !in m2
    requires IdentityKey(p1, m1) == IdentityKey(p2, m2)
    ensures p1 == p2 && m1 == m2
  {
    LastDashAt(p1, m1);
    LastDashAt(p2, m2);
    var k := IdentityKey(p1, m1);
    assert p1 == k[..|p1|] && p2 == k[..|p2|];
    assert m1 == k[|p1| + 1..] && m2 == k[|p2| + 1..];
  }

  lemma LastDashAt(p: string, m: string)
    requires '-' !in m
    ensures Text.LastIndexOf(IdentityKey(p, m), '-') == Some(|p|)
  {
    var k := IdentityKey(p, m);
    forall j | |p| < j < |k|
      ensures k[j] != '-'
    {
      assert k[j] == m[j - |p| - 1];
    }
    Text.LastIndexOfAt(k, '-', |p|);
  }
}
