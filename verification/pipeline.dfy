/**
 * The generator and the loader together: what a generation run writes is what
 * the import-time loader reads back, and the proxies it builds answer like the
 * memes they stand for.
 */
module Pipeline {
  import opened Wrappers
  import opened Fingerprint
  import opened Memes
  import opened StaticGenerator
  import opened LazyMemes
  import opened FastLoader

  /** A record written by the generator always yields a proxy, with the meme's own public attributes. */
  lemma InfoRoundTrip(key: string, m: Meme, cacheDir: string)
    ensures var info := ExtractInfo(key, m);
      var p := NewLazyMeme(key, info, cacheDir);
      && info.Truthy()
      && p.Some?
      && p.value.key == key
      && p.value.keywords == m.keywords
      && p.value.shortcuts == m.shortcuts
      && (forall t :: t in p.value.tags <==> t in m.tags)
      && p.value.params == m.params.(argsType := None)
      && !p.value.loaded
  {
    var info := ExtractInfo(key, m);
    var docs := info.shortcuts.value;
    assert !MissingShortcutKey(docs) by {
      forall i | 0 <= i < |docs| ensures docs[i].key.Some? {
        assert docs[i] == ShortcutToDoc(m.shortcuts[i]);
      }
    }
    var p := NewLazyMeme(key, info, cacheDir).value;
    assert |p.shortcuts| == |m.shortcuts|;
    forall i | 0 <= i < |m.shortcuts| ensures p.shortcuts[i] == m.shortcuts[i] {
      assert docs[i] == ShortcutToDoc(m.shortcuts[i]);
    }
  }

  /** What a generation run writes, in the terms the loader reads it. */
  predicate Written(g: CacheFiles, src: Sources, scan: Scan)
    requires scan.Valid()
  {
    && AllReadable(g)
    && g.memeList.value == GenerateMemeList(scan.registry)
    && g.memeInfo.value == GenerateMemeInfo(scan.registry, scan.failing)
    && g.memeKeywords.value == KeywordIndex(scan.registry)
    && IsCacheValid(g, src.State())
  }

  lemma GeneratedIsWritten(files: CacheFiles, src: Sources, scan: Scan, includePreviews: bool)
    requires scan.Valid()
    ensures Written(GenerateStaticCache(files, src, scan, includePreviews), src, scan)
  {
  }

  /** After a generation run the loader finds every artifact readable and the cache valid for the same sources. */
  lemma GeneratedCacheLoads(files: CacheFiles, src: Sources, scan: Scan, includePreviews: bool, cacheDir: string)
    requires scan.Valid()
    ensures var g := GenerateStaticCache(files, src, scan, includePreviews);
      && IsCacheAvailable(g) && AllReadable(g)
      && LoadStaticCache(g, src.State()).Some?
      && LoadCache(Fresh(cacheDir), g).ok
      && GetMemeList(LoadCache(Fresh(cacheDir), g).state) == GenerateMemeList(scan.registry)
  {
    var g := GenerateStaticCache(files, src, scan, includePreviews);
    GeneratedIsWritten(files, src, scan, includePreviews);
    WrittenLoads(g, src, scan, cacheDir);
  }

  lemma WrittenLoads(g: CacheFiles, src: Sources, scan: Scan, cacheDir: string)
    requires scan.Valid() && Written(g, src, scan)
    ensures IsCacheAvailable(g) && AllReadable(g)
    ensures LoadStaticCache(g, src.State()).Some?
    ensures LoadCache(Fresh(cacheDir), g).ok
    ensures GetMemeList(LoadCache(Fresh(cacheDir), g).state) == GenerateMemeList(scan.registry)
  {
  }

  /**
   * Keyword search after loading a generated cache answers with the keyword's
   * bucket: exactly the entries that list the keyword, in registry order, and
   * empty for a keyword no entry has.
   */
  lemma SearchAfterLoad(files: CacheFiles, src: Sources, scan: Scan, includePreviews: bool, cacheDir: string, w: string)
    requires scan.Valid()
    ensures var g := GenerateStaticCache(files, src, scan, includePreviews);
      var hits := SearchMemeByKeyword(LoadCache(Fresh(cacheDir), g).state, w);
      && (forall k :: k in hits <==> k in scan.registry.items && w in scan.registry.items[k].keywords)
      && FollowsOrder(hits, scan.registry.order)
  {
    GeneratedIsWritten(files, src, scan, includePreviews);
    SearchWritten(GenerateStaticCache(files, src, scan, includePreviews), src, scan, cacheDir, w);
  }

  lemma SearchWritten(g: CacheFiles, src: Sources, scan: Scan, cacheDir: string, w: string)
    requires scan.Valid() && Written(g, src, scan)
    ensures var hits := SearchMemeByKeyword(LoadCache(Fresh(cacheDir), g).state, w);
      && (forall k :: k in hits <==> k in scan.registry.items && w in scan.registry.items[k].keywords)
      && FollowsOrder(hits, scan.registry.order)
  {
    AccessorsAfterLoad(Fresh(cacheDir), g, w, w);
    IndexLookup(scan.registry, w);
  }

  /** Looking a keyword up in the keyword index, with `[]` for an unknown keyword. */
  lemma IndexLookup(reg: Registry<Meme>, w: string)
    requires reg.Valid()
    ensures var idx := KeywordIndex(reg);
      var hits := if w in idx then idx[w] else [];
      && (forall k :: k in hits <==> k in reg.items && w in reg.items[k].keywords)
      && FollowsOrder(hits, reg.order)
  {
    KeywordIndexEntry(reg, w);
    BucketFacts(reg, w);
  }

  /**
   * Import-time fast loading over a freshly generated cache, into a registry
   * with nothing in it, registers a proxy for exactly the entries whose
   * records were written, each built from its record.
   */
  lemma FastLoadingRegistersWrittenEntries(files: CacheFiles, src: Sources, scan: Scan, includePreviews: bool,
                                           cacheDir: string)
    requires scan.Valid()
    ensures var g := GenerateStaticCache(files, src, scan, includePreviews);
      var e := EnableFastLoading(Fresh(cacheDir), g, EmptyRegistry());
      && e.ok
      && e.registry.items.Keys == scan.registry.items.Keys - scan.failing
      && forall k :: k in e.registry.items ==>
        e.registry.items[k] == Lazy(NewLazyMeme(k, ExtractInfo(k, scan.registry.items[k]), cacheDir).value)
  {
    GeneratedIsWritten(files, src, scan, includePreviews);
    FastLoadingWritten(GenerateStaticCache(files, src, scan, includePreviews), scan.registry, scan.failing, cacheDir);
  }

  lemma FastLoadingWritten(g: CacheFiles, reg: Registry<Meme>, failing: set<string>, cacheDir: string)
    requires reg.Valid() && AllReadable(g)
    requires g.memeList.value == GenerateMemeList(reg) && g.memeInfo.value == GenerateMemeInfo(reg, failing)
    ensures var e := EnableFastLoading(Fresh(cacheDir), g, EmptyRegistry());
      && e.ok
      && e.registry.items.Keys == reg.items.Keys - failing
      && forall k :: k in e.registry.items ==>
        e.registry.items[k] == Lazy(NewLazyMeme(k, ExtractInfo(k, reg.items[k]), cacheDir).value)
  {
    FastLoadingKeys(g, reg, failing, cacheDir);
    FastLoadingProxies(g, reg, failing, cacheDir);
  }

  lemma FastLoadingKeys(g: CacheFiles, reg: Registry<Meme>, failing: set<string>, cacheDir: string)
    requires reg.Valid() && AllReadable(g)
    requires g.memeList.value == GenerateMemeList(reg) && g.memeInfo.value == GenerateMemeInfo(reg, failing)
    ensures var e := EnableFastLoading(Fresh(cacheDir), g, EmptyRegistry());
      e.ok && e.registry.items.Keys == reg.items.Keys - failing
  {
    var e := EnableFastLoading(Fresh(cacheDir), g, EmptyRegistry());
    assert e.state == LoadedFrom(Fresh(cacheDir), g);
    forall k ensures k in e.registry.items <==> k in reg.items && k !in failing {
      WrittenEntry(g, reg, failing, cacheDir, k);
    }
  }

  lemma FastLoadingProxies(g: CacheFiles, reg: Registry<Meme>, failing: set<string>, cacheDir: string)
    requires reg.Valid() && AllReadable(g)
    requires g.memeList.value == GenerateMemeList(reg) && g.memeInfo.value == GenerateMemeInfo(reg, failing)
    ensures var e := EnableFastLoading(Fresh(cacheDir), g, EmptyRegistry());
      forall k :: k in e.registry.items ==>
        k in reg.items && e.registry.items[k] == Lazy(NewLazyMeme(k, ExtractInfo(k, reg.items[k]), cacheDir).value)
  {
    var e := EnableFastLoading(Fresh(cacheDir), g, EmptyRegistry());
    assert e.state == LoadedFrom(Fresh(cacheDir), g);
    forall k | k in e.registry.items
      ensures k in reg.items && e.registry.items[k] == Lazy(NewLazyMeme(k, ExtractInfo(k, reg.items[k]), cacheDir).value)
    {
      WrittenEntry(g, reg, failing, cacheDir, k);
    }
  }

  /** One key of a written cache: it gets a proxy iff its record was written, and the proxy is built from that record. */
  lemma WrittenEntry(g: CacheFiles, reg: Registry<Meme>, failing: set<string>, cacheDir: string, k: string)
    requires reg.Valid() && AllReadable(g)
    requires g.memeList.value == GenerateMemeList(reg) && g.memeInfo.value == GenerateMemeInfo(reg, failing)
    ensures var state := LoadedFrom(Fresh(cacheDir), g);
      && ((k in g.memeList.value && Creatable(state, k)) <==> k in reg.items && k !in failing)
      && (k in reg.items && k !in failing ==>
        ProxyFor(state, k) == NewLazyMeme(k, ExtractInfo(k, reg.items[k]), cacheDir).value)
  {
    var state := LoadedFrom(Fresh(cacheDir), g);
    if k in reg.items && k !in failing {
      InfoRoundTrip(k, reg.items[k], cacheDir);
      assert GetMemeInfo(state, k) == Some(ExtractInfo(k, reg.items[k]));
    } else {
      assert GetMemeInfo(state, k).None?;
    }
  }

  /**
   * A preview rendered during generation, saved as jpg, png or gif, is served
   * from the cache: asking any proxy of that key for its preview does not
   * materialise it.
   */
  lemma RenderedPreviewServedFromCache(files: CacheFiles, src: Sources, scan: Scan, p: LazyMeme, env: Loading)
    requires scan.Valid()
    requires p.key in scan.registry.items
    requires scan.rendered(p.key).Some? && scan.rendered(p.key).value in {"jpg", "png", "gif"}
    ensures var g := GenerateStaticCache(files, src, scan, true);
      var r := GeneratePreview(p, g.previews, env);
      r.proxy == p && r.result.CachedPreview?
  {
    var reg := scan.registry;
    var k := p.key;
    var ext := scan.rendered(k).value;
    assert k in multiset(scan.completed) by {
      assert k in reg.order;
      assert k in multiset(reg.order);
    }
    var info := GeneratePreviews(reg, scan.rendered, scan.completed);
    assert k in info;
    assert PreviewFile(k, ext) in PreviewFiles(info, scan.rendered);
  }
}
