/**
 * Loading the metadata cache at import time and filling the registry with
 * lazy proxies (core/meme_generator/fast_loader.py, `FastMemeLoader` and
 * `enable_fast_loading`).
 *
 * The loader's `cache_data` dictionary is one optional slot per artifact;
 * reading a file is looking it up in `CacheFiles`, where an artifact that is
 * missing or cannot be parsed makes the read raise.
 */
module FastLoader {
  import opened Wrappers
  import opened Memes
  import opened LazyMemes

  /** The loader: its cache directory, the `loaded` flag and the four `cache_data` slots. */
  datatype LoaderState = LoaderState(
    cacheDir: string, loaded: bool,
    memeList: Option<seq<string>>, memeInfo: Option<map<string, InfoDoc>>,
    memeKeywords: Option<map<string, seq<string>>>, meta: Option<MetaDoc>)

  /** `FastMemeLoader(cache_dir)`: nothing loaded, `cache_data` empty. */
  function Fresh(cacheDir: string): (r: LoaderState)
    ensures !r.loaded && r.cacheDir == cacheDir
  {
    LoaderState(cacheDir, false, None, None, None, None)
  }

  /** `is_cache_available` (and `is_fast_loading_available`, which asks the same loader): all four artifacts exist. */
  function IsCacheAvailable(files: CacheFiles): (r: bool)
    ensures r <==> (!files.memeList.Absent? && !files.memeInfo.Absent?
      && !files.memeKeywords.Absent? && !files.cacheMeta.Absent?)
  {
    files.AllArtifactsExist()
  }

  /** Every artifact exists and parses, so that `load_cache` reads them all. */
  predicate AllReadable(files: CacheFiles) {
    files.memeList.Stored? && files.memeInfo.Stored? && files.memeKeywords.Stored? && files.cacheMeta.Stored?
  }

  /** The state a complete load leaves: all four slots from the files, and loaded. */
  function LoadedFrom(s: LoaderState, files: CacheFiles): (r: LoaderState)
    requires AllReadable(files)
    ensures r.loaded && r.cacheDir == s.cacheDir
  {
    LoaderState(s.cacheDir, true, Some(files.memeList.value), Some(files.memeInfo.value),
      Some(files.memeKeywords.value), Some(files.cacheMeta.value))
  }

  datatype LoadResult = LoadResult(state: LoaderState, ok: bool)

  /**
   * The cache is available and the first `n` of the reads `load_cache` makes
   * (the key list, the records, the keyword index, the meta) succeed.
   */
  predicate ReadsFirst(files: CacheFiles, n: nat) {
    && IsCacheAvailable(files)
    && (n >= 1 ==> files.memeList.Stored?)
    && (n >= 2 ==> files.memeInfo.Stored?)
    && (n >= 3 ==> files.memeKeywords.Stored?)
    && (n >= 4 ==> files.cacheMeta.Stored?)
  }

  /**
   * `load_cache` as the source writes it: the four files are read one after
   * another into `cache_data`, and `loaded` is set only after the last. A
   * read that raises stops the sequence, keeps what was already stored, and
   * leaves `loaded` as it was.
   */
  function LoadCacheAsWritten(s: LoaderState, files: CacheFiles): (r: LoadResult)
    ensures r.ok <==> AllReadable(files)
    ensures r.ok ==> r.state == LoadedFrom(s, files)
    ensures !r.ok ==> r.state.loaded == s.loaded && r.state.cacheDir == s.cacheDir
    ensures !r.ok ==> r.state.meta == s.meta
    ensures !r.ok && !ReadsFirst(files, 1) ==> r.state == s
    ensures !r.ok && ReadsFirst(files, 1) ==> r.state.memeList == Some(files.memeList.value)
    ensures !r.ok && ReadsFirst(files, 2) ==> r.state.memeInfo == Some(files.memeInfo.value)
    ensures !r.ok && !ReadsFirst(files, 2) ==> r.state.memeInfo == s.memeInfo
    ensures !r.ok && ReadsFirst(files, 3) ==> r.state.memeKeywords == Some(files.memeKeywords.value)
    ensures !r.ok && !ReadsFirst(files, 3) ==> r.state.memeKeywords == s.memeKeywords
  {
    if !IsCacheAvailable(files) || !files.memeList.Stored? then LoadResult(s, false)
    else
      var s1 := s.(memeList := Some(files.memeList.value));
      if !files.memeInfo.Stored? then LoadResult(s1, false)
      else
        var s2 := s1.(memeInfo := Some(files.memeInfo.value));
        if !files.memeKeywords.Stored? then LoadResult(s2, false)
        else
          var s3 := s2.(memeKeywords := Some(files.memeKeywords.value));
          if !files.cacheMeta.Stored? then LoadResult(s3, false)
          else LoadResult(s3.(meta := Some(files.cacheMeta.value), loaded := true), true)
  }

  /**
   * `load_cache` with the evidently intended all-or-nothing effect: a load
   * that fails part-way leaves the loader exactly as it was.
   */
  function LoadCache(s: LoaderState, files: CacheFiles): (r: LoadResult)
    ensures r.ok <==> AllReadable(files)
    ensures r.ok ==> r.state == LoadedFrom(s, files)
    ensures !r.ok ==> r.state == s
  {
    if AllReadable(files) then LoadResult(LoadedFrom(s, files), true) else LoadResult(s, false)
  }

  // ---- accessors ----

  /** `get_meme_list`: empty until loaded. */
  function GetMemeList(s: LoaderState): (r: seq<string>)
    ensures !s.loaded ==> r == []
  {
    if !s.loaded then [] else s.memeList.GetOr([])
  }

  /** `get_meme_info(key)`: nothing until loaded, and nothing for a key without a record. */
  function GetMemeInfo(s: LoaderState, key: string): (r: Option<InfoDoc>)
    ensures r.Some? <==> s.loaded && s.memeInfo.Some? && key in s.memeInfo.value
    ensures r.Some? ==> r.value == s.memeInfo.value[key]
  {
    if !s.loaded then None
    else
      match s.memeInfo
      case Some(info) => if key in info then Some(info[key]) else None
      case None => None
  }

  /** `get_meme_keywords`: empty until loaded. */
  function GetMemeKeywords(s: LoaderState): (r: map<string, seq<string>>)
    ensures !s.loaded ==> r == map[]
  {
    if !s.loaded then map[] else s.memeKeywords.GetOr(map[])
  }

  /** `search_meme_by_keyword`: the keyword's key list, or empty when the keyword is unknown or nothing is loaded. */
  function SearchMemeByKeyword(s: LoaderState, keyword: string): (r: seq<string>)
    ensures keyword in GetMemeKeywords(s) ==> r == GetMemeKeywords(s)[keyword]
    ensures keyword !in GetMemeKeywords(s) ==> r == []
    ensures !s.loaded ==> r == []
  {
    var index := GetMemeKeywords(s);
    if keyword in index then index[keyword] else []
  }

  /** `get_cache_meta`: `{}` until loaded. */
  function GetCacheMeta(s: LoaderState): (r: MetaDoc)
    ensures !s.loaded ==> r == EmptyMeta()
  {
    if !s.loaded then EmptyMeta() else s.meta.GetOr(EmptyMeta())
  }

  /** After a successful load every accessor answers from the files just read. */
  lemma AccessorsAfterLoad(s: LoaderState, files: CacheFiles, key: string, keyword: string)
    requires LoadCache(s, files).ok
    ensures var t := LoadCache(s, files).state;
      && GetMemeList(t) == files.memeList.value
      && (GetMemeInfo(t, key).Some? <==> key in files.memeInfo.value)
      && (key in files.memeInfo.value ==> GetMemeInfo(t, key) == Some(files.memeInfo.value[key]))
      && GetMemeKeywords(t) == files.memeKeywords.value
      && SearchMemeByKeyword(t, keyword) ==
        (if keyword in files.memeKeywords.value then files.memeKeywords.value[keyword] else [])
      && GetCacheMeta(t) == files.cacheMeta.value
  {
  }

  // ---- the two loads compared ----

  /** What the accessors serve: the key list, the info records, the keyword index and the meta. */
  datatype View = View(list: seq<string>, info: map<string, InfoDoc>, keywords: map<string, seq<string>>, meta: MetaDoc)

  function Served(s: LoaderState): (r: View)
    ensures r.list == GetMemeList(s) && r.keywords == GetMemeKeywords(s) && r.meta == GetCacheMeta(s)
    ensures forall k :: GetMemeInfo(s, k) == (if k in r.info then Some(r.info[k]) else None)
  {
    View(GetMemeList(s), if s.loaded then s.memeInfo.GetOr(map[]) else map[], GetMemeKeywords(s), GetCacheMeta(s))
  }

  /** The files' own contents, as a successful load serves them. */
  function ViewOf(files: CacheFiles): View
    requires AllReadable(files)
  {
    View(files.memeList.value, files.memeInfo.value, files.memeKeywords.value, files.cacheMeta.value)
  }

  /**
   * The written load, after an earlier successful one, can fail part-way and
   * still claim to be loaded: it then lists the new generation's keys while
   * serving the old generation's records, so a key of the new list has no
   * record and an old key's record is still served.
   */
  lemma FailedReloadMixesGenerations(a: InfoDoc)
    ensures var first := CacheFiles(Stored(["a"]), Stored(map["a" := a]), Stored(map[]), Stored(EmptyMeta()), {});
      var second := CacheFiles(Stored(["b"]), Unreadable, Stored(map[]), Stored(EmptyMeta()), {});
      var s := LoadCacheAsWritten(Fresh("static_cache"), first).state;
      var r := LoadCacheAsWritten(s, second);
      && !r.ok && r.state.loaded
      && GetMemeList(r.state) == ["b"]
      && GetMemeInfo(r.state, "b").None?
      && GetMemeInfo(r.state, "a") == Some(a)
      && Served(r.state) != Served(s) && Served(r.state).list != ViewOf(first).list
  {
    var first := CacheFiles(Stored(["a"]), Stored(map["a" := a]), Stored(map[]), Stored(EmptyMeta()), {});
    var s := LoadCacheAsWritten(Fresh("static_cache"), first).state;
    assert GetMemeList(s) == ["a"];
  }

  /** The corrected load always serves one generation: the previous one, or the files just read. */
  lemma LoadCacheServesOneGeneration(s: LoaderState, files: CacheFiles)
    ensures var r := LoadCache(s, files);
      Served(r.state) == Served(s) || (AllReadable(files) && Served(r.state) == ViewOf(files))
  {
  }

  /**
   * The written and the corrected load report the same result, and serve the
   * same data, whenever the loader was not yet loaded or the load succeeds:
   * in particular for the single load done at import time.
   */
  lemma LoadCacheAgreesUnlessReloadFails(s: LoaderState, files: CacheFiles)
    requires !s.loaded || AllReadable(files)
    ensures LoadCacheAsWritten(s, files).ok == LoadCache(s, files).ok
    ensures Served(LoadCacheAsWritten(s, files).state) == Served(LoadCache(s, files).state)
  {
  }

  // ---- create_lazy_meme_objects ----

  /** A listed key gets a proxy: it has a non-empty record and the proxy's constructor does not raise. */
  predicate Creatable(s: LoaderState, key: string) {
    var info := GetMemeInfo(s, key);
    info.Some? && info.value.Truthy() && NewLazyMeme(key, info.value, s.cacheDir).Some?
  }

  function ProxyFor(s: LoaderState, key: string): LazyMeme
    requires Creatable(s, key)
  {
    NewLazyMeme(key, GetMemeInfo(s, key).value, s.cacheDir).value
  }

  /**
   * The loop of `create_lazy_meme_objects` over `keys`: a key already in the
   * registry is skipped, as is one without a usable record or whose proxy
   * cannot be built; every other key gets its proxy, appended in list order.
   */
  function AddLazies(keys: seq<string>, s: LoaderState, reg: Registry<Entry>): (r: Registry<Entry>)
    requires reg.Valid()
    ensures r.Valid()
    ensures reg.order <= r.order
    ensures forall k :: k in r.items <==> k in reg.items || (k in keys && Creatable(s, k))
    ensures forall k :: k in reg.items ==> r.items[k] == reg.items[k]
    ensures forall k :: k in r.items && k !in reg.items ==> r.items[k] == Lazy(ProxyFor(s, k))
    decreases |keys|
  {
    if |keys| == 0 then reg
    else
      var k := keys[0];
      assert keys == [k] + keys[1..];
      var next := if k in reg.items || !Creatable(s, k) then reg else reg.Add(k, Lazy(ProxyFor(s, k)));
      AddLazies(keys[1..], s, next)
  }

  /** `create_lazy_meme_objects`: nothing until loaded, then a proxy for every creatable listed key not yet registered. */
  function CreateLazyMemeObjects(s: LoaderState, reg: Registry<Entry>): (r: Registry<Entry>)
    requires reg.Valid()
    ensures r.Valid()
    ensures !s.loaded ==> r == reg
    ensures reg.order <= r.order
    ensures forall k :: k in r.items <==> k in reg.items || (k in GetMemeList(s) && Creatable(s, k))
    ensures forall k :: k in reg.items ==> r.items[k] == reg.items[k]
    ensures forall k :: k in r.items && k !in reg.items ==> r.items[k] == Lazy(ProxyFor(s, k))
  {
    if !s.loaded then reg else AddLazies(GetMemeList(s), s, reg)
  }

  /** When every key is registered already or has no usable record, the loop changes nothing. */
  lemma {:induction false} AddLaziesNothingNew(keys: seq<string>, s: LoaderState, reg: Registry<Entry>)
    requires reg.Valid()
    requires forall k :: k in keys ==> k in reg.items || !Creatable(s, k)
    ensures AddLazies(keys, s, reg) == reg
    decreases |keys|
  {
    if |keys| > 0 {
      assert keys[0] in keys;
      assert forall k :: k in keys[1..] ==> k in keys;
      AddLaziesNothingNew(keys[1..], s, reg);
    }
  }

  /** Creating the proxies twice adds nothing the second time. */
  lemma CreateLazyMemeObjectsIdempotent(s: LoaderState, reg: Registry<Entry>)
    requires reg.Valid()
    ensures var once := CreateLazyMemeObjects(s, reg);
      CreateLazyMemeObjects(s, once) == once
  {
    var once := CreateLazyMemeObjects(s, reg);
    if s.loaded {
      AddLaziesNothingNew(GetMemeList(s), s, once);
    }
  }

  // ---- enable_fast_loading ----

  datatype Enabled = Enabled(state: LoaderState, registry: Registry<Entry>, ok: bool)

  /**
   * `enable_fast_loading`, over the corrected load: load the cache; on success
   * fill the registry with proxies and report true, otherwise leave the
   * registry and the loader untouched and report false.
   */
  function EnableFastLoading(s: LoaderState, files: CacheFiles, reg: Registry<Entry>): (r: Enabled)
    requires reg.Valid()
    ensures r.registry.Valid()
    ensures r.ok <==> AllReadable(files)
    ensures !r.ok ==> r.registry == reg && r.state == s
    ensures r.ok ==> (r.state == LoadedFrom(s, files)
      && (forall k :: k in r.registry.items <==> k in reg.items || (k in files.memeList.value && Creatable(r.state, k)))
      && forall k :: k in r.registry.items && k !in reg.items ==> r.registry.items[k] == Lazy(ProxyFor(r.state, k)))
    ensures forall k :: k in reg.items ==> r.registry.items[k] == reg.items[k]
  {
    var l := LoadCache(s, files);
    if l.ok then Enabled(l.state, CreateLazyMemeObjects(l.state, reg), true)
    else Enabled(l.state, reg, false)
  }

  /**
   * `enable_fast_loading` as the source writes it, over the written load: a
   * failure leaves the registry untouched, but the loader keeps the slots read
   * before the failing file.
   */
  function EnableFastLoadingAsWritten(s: LoaderState, files: CacheFiles, reg: Registry<Entry>): (r: Enabled)
    requires reg.Valid()
    ensures r.registry.Valid()
    ensures r.ok <==> AllReadable(files)
    ensures !r.ok ==> r.registry == reg && r.state.loaded == s.loaded && r.state.cacheDir == s.cacheDir
    ensures r.ok ==> r.state == LoadedFrom(s, files) && r.registry == CreateLazyMemeObjects(r.state, reg)
  {
    var l := LoadCacheAsWritten(s, files);
    if l.ok then Enabled(l.state, CreateLazyMemeObjects(l.state, reg), true)
    else Enabled(l.state, reg, false)
  }

  /**
   * From a loader that is not yet loaded (the one import creates), or when the
   * cache loads, the written and the corrected `enable_fast_loading` report
   * the same, register the same entries and serve the same data.
   */
  lemma EnableFastLoadingAgreesUnlessReloadFails(s: LoaderState, files: CacheFiles, reg: Registry<Entry>)
    requires reg.Valid()
    requires !s.loaded || AllReadable(files)
    ensures var w := EnableFastLoadingAsWritten(s, files, reg);
      var c := EnableFastLoading(s, files, reg);
      w.ok == c.ok && w.registry == c.registry && Served(w.state) == Served(c.state)
  {
    LoadCacheAgreesUnlessReloadFails(s, files);
  }
}
