/**
 * Building the metadata cache from the live registry
 * (core/static_generator.py, `StaticMemeGenerator`).
 *
 * Module loading (`load_meme_modules`) and preview rendering are not modelled:
 * their outcome is given as a `Scan`, the registry they leave behind together
 * with which entries fail metadata extraction and which renders succeed.
 */
module StaticGenerator {
  import opened Wrappers
  import opened Ordering
  import opened Sorting
  import opened Fingerprint
  import opened Memes

  // ---- generate_meme_list ----

  /** `sorted(get_meme_keys())`: the registry's keys in ascending order, each once. */
  function GenerateMemeList(reg: Registry<Meme>): (r: seq<string>)
    requires reg.Valid()
    ensures StrictlySorted(r, StrLess)
    ensures multiset(r) == multiset(reg.order)
    ensures forall k :: k in r <==> k in reg.items
  {
    var r := Sort(reg.order, StrLess);
    StrLessIsStrictTotalOrder();
    assert PairwiseComparable(reg.order, StrLess);
    SortStrictlySorted(reg.order, StrLess);
    assert forall k :: k in r <==> k in multiset(reg.order);
    r
  }

  // ---- generate_meme_info ----

  function ShortcutToDoc(s: Shortcut): ShortcutDoc {
    ShortcutDoc(Some(s.key), s.humanized, Some(s.args))
  }

  /** One `parser_options` record; `action` is written as `null` when the option's action is falsy. */
  function OptionToDoc(o: ParserOption): (r: OptionDoc)
    ensures r.action.None? <==> o.action.None? || !o.action.value.truthy
    ensures r.action.Some? ==> r.action.value == o.action.value.text
    ensures r.names == o.names && r.helpText == o.helpText && r.default == o.default
  {
    var action := if o.action.Some? && o.action.value.truthy then Some(o.action.value.text) else None;
    OptionDoc(o.names, o.helpText, o.default, action)
  }

  /** The `meme_info.json` record of one meme; `args_type` appears only when the meme has one. */
  function ExtractInfo(key: string, m: Meme): (r: InfoDoc)
    ensures r.Truthy() && r.key == Some(key)
    ensures r.argsType.Some? <==> m.params.argsType.Some?
    ensures m.params.argsType.Some? ==>
      var options := m.params.argsType.value.parserOptions;
      |r.argsType.value| == |options| &&
      forall i :: 0 <= i < |options| ==> r.argsType.value[i] == OptionToDoc(options[i])
  {
    var p := m.params;
    var params := ParamsDoc(Some(p.minImages), Some(p.maxImages), Some(p.minTexts), Some(p.maxTexts), Some(p.defaultTexts));
    var argsType :=
      if p.argsType.Some? then
        var options := p.argsType.value.parserOptions;
        Some(seq(|options|, i requires 0 <= i < |options| => OptionToDoc(options[i])))
      else None;
    InfoDoc(
      Some(key), Some(m.keywords),
      Some(seq(|m.shortcuts|, i requires 0 <= i < |m.shortcuts| => ShortcutToDoc(m.shortcuts[i]))),
      Some(m.tags), Some(m.dateCreated), Some(m.dateModified), Some(params), argsType, false)
  }

  /**
   * `generate_meme_info`: a record for every registry entry except those whose
   * extraction raises (`failing`); one failure omits only that entry.
   */
  function GenerateMemeInfo(reg: Registry<Meme>, failing: set<string>): (r: map<string, InfoDoc>)
    ensures r.Keys == reg.items.Keys - failing
    ensures forall k :: k in r ==> r[k] == ExtractInfo(k, reg.items[k])
  {
    map k | k in reg.items && k !in failing :: ExtractInfo(k, reg.items[k])
  }

  /**
   * The key list is built from the live registry, not from the info records:
   * every info key is listed, and an entry whose extraction failed is listed too.
   */
  lemma InfoKeysWithinMemeList(reg: Registry<Meme>, failing: set<string>)
    requires reg.Valid()
    ensures forall k :: k in GenerateMemeInfo(reg, failing) ==> k in GenerateMemeList(reg)
    ensures forall k :: k in reg.items && k in failing ==>
      k in GenerateMemeList(reg) && k !in GenerateMemeInfo(reg, failing)
  {
  }

  // ---- generate_meme_keywords ----

  /** Number of occurrences of `w` in `s`. */
  function Count(s: seq<string>, w: string): (n: nat)
    ensures n > 0 <==> w in s
  {
    if |s| == 0 then 0
    else
      assert s == s[..|s| - 1] + [s[|s| - 1]];
      Count(s[..|s| - 1], w) + (if s[|s| - 1] == w then 1 else 0)
  }

  function Repeat(k: string, n: nat): (r: seq<string>)
    ensures |r| == n && forall i :: 0 <= i < n ==> r[i] == k
  {
    if n == 0 then [] else Repeat(k, n - 1) + [k]
  }

  function KeywordsOf(items: map<string, Meme>, k: string): seq<string> {
    if k in items then items[k].keywords else []
  }

  /**
   * The bucket of keyword `w` over the keys `order`: each key, in order, once
   * per occurrence of `w` among its keywords.
   */
  function Bucket(order: seq<string>, items: map<string, Meme>, w: string): seq<string> {
    if |order| == 0 then []
    else
      var last := order[|order| - 1];
      Bucket(order[..|order| - 1], items, w) + Repeat(last, Count(KeywordsOf(items, last), w))
  }

  lemma {:induction false} BucketMembers(order: seq<string>, items: map<string, Meme>, w: string)
    ensures forall k :: k in Bucket(order, items, w) <==> k in order && w in KeywordsOf(items, k)
  {
    if |order| > 0 {
      var init := order[..|order| - 1];
      var last := order[|order| - 1];
      BucketMembers(init, items, w);
      assert order == init + [last];
      var rep := Repeat(last, Count(KeywordsOf(items, last), w));
      forall k ensures k in rep <==> k == last && w in KeywordsOf(items, last) {
        if k in rep {
          var i :| 0 <= i < |rep| && rep[i] == k;
        }
        if k == last && w in KeywordsOf(items, last) {
          assert rep[0] == k;
        }
      }
    }
  }

  /** Position of the first occurrence of `k` in `s`, or `|s|` when there is none. */
  function IndexOf(s: seq<string>, k: string): (i: nat)
    ensures i <= |s| && (i < |s| <==> k in s)
    ensures i < |s| ==> s[i] == k
    ensures forall t :: 0 <= t < i ==> s[t] != k
  {
    if |s| == 0 then 0
    else if s[0] == k then 0
    else 1 + IndexOf(s[1..], k)
  }

  lemma IndexOfPrefix(s: seq<string>, n: nat, k: string)
    requires n <= |s| && k in s[..n]
    ensures IndexOf(s[..n], k) == IndexOf(s, k)
  {
    var i := IndexOf(s[..n], k);
    assert s[..n][i] == s[i];
  }

  /** The keys of `b` appear in the same relative order as in `order`. */
  predicate FollowsOrder(b: seq<string>, order: seq<string>) {
    forall x, y :: 0 <= x < y < |b| ==> IndexOf(order, b[x]) <= IndexOf(order, b[y])
  }

  /** Each bucket follows the registry's iteration order. */
  lemma {:induction false} BucketFollowsOrder(order: seq<string>, items: map<string, Meme>, w: string)
    requires forall i, j :: 0 <= i < j < |order| ==> order[i] != order[j]
    ensures FollowsOrder(Bucket(order, items, w), order)
  {
    BucketMembers(order, items, w);
    if |order| > 0 {
      var n := |order| - 1;
      var init := order[..n];
      var last := order[n];
      BucketFollowsOrder(init, items, w);
      BucketMembers(init, items, w);
      var b0 := Bucket(init, items, w);
      var rep := Repeat(last, Count(KeywordsOf(items, last), w));
      var b := Bucket(order, items, w);
      assert b == b0 + rep;
      assert IndexOf(order, last) == n;
      forall x, y | 0 <= x < y < |b| ensures IndexOf(order, b[x]) <= IndexOf(order, b[y]) {
        if y < |b0| {
          assert b[x] == b0[x] && b[y] == b0[y];
          assert b0[x] in b0 && b0[y] in b0;
          assert b0[x] in init && b0[y] in init;
          assert IndexOf(init, b0[x]) <= IndexOf(init, b0[y]);
          IndexOfPrefix(order, n, b0[x]);
          IndexOfPrefix(order, n, b0[y]);
        } else {
          assert b[y] == rep[y - |b0|] == last;
          assert b[x] in b;
          assert b[x] in order;
          assert IndexOf(order, b[x]) < |order|;
        }
      }
    }
  }

  /** Every keyword of some registry entry. */
  function AllKeywords(reg: Registry<Meme>): set<string> {
    set k, w | k in reg.items && w in reg.items[k].keywords :: w
  }

  lemma BucketFacts(reg: Registry<Meme>, w: string)
    requires reg.Valid()
    ensures var b := Bucket(reg.order, reg.items, w);
      && (forall k :: k in b <==> k in reg.items && w in reg.items[k].keywords)
      && (b != [] <==> w in AllKeywords(reg))
      && FollowsOrder(b, reg.order)
  {
    BucketInRegistry(reg, w);
    BucketFollowsOrder(reg.order, reg.items, w);
    var b := Bucket(reg.order, reg.items, w);
    if w in AllKeywords(reg) {
      var k :| k in reg.items && w in reg.items[k].keywords;
      assert k in b;
    }
    if b != [] {
      assert b[0] in b;
    }
  }

  lemma BucketInRegistry(reg: Registry<Meme>, w: string)
    requires reg.Valid()
    ensures forall k :: k in Bucket(reg.order, reg.items, w) <==> k in reg.items && w in reg.items[k].keywords
  {
    BucketMembers(reg.order, reg.items, w);
  }

  /**
   * The keyword index as a declarative reference: for each keyword any entry
   * has, its bucket over the registry order. It is the exact inverse of the
   * entries' keyword lists, has no empty bucket, and each bucket follows the
   * registry's iteration order.
   */
  function KeywordIndex(reg: Registry<Meme>): (r: map<string, seq<string>>)
    requires reg.Valid()
    ensures forall w :: w in r <==> exists k :: k in reg.items && w in reg.items[k].keywords
    ensures forall w, k :: w in r && k in r[w] <==> k in reg.items && w in reg.items[k].keywords
    ensures forall w :: w in r ==> r[w] != []
    ensures forall w :: w in r ==> FollowsOrder(r[w], reg.order)
  {
    var r := map w | w in AllKeywords(reg) :: Bucket(reg.order, reg.items, w);
    forall w ensures w in r ==> r[w] == Bucket(reg.order, reg.items, w) && r[w] != [] {
      BucketFacts(reg, w);
    }
    forall w, k ensures w in r && k in r[w] <==> k in reg.items && w in reg.items[k].keywords {
      BucketFacts(reg, w);
    }
    forall w | w in r
      ensures forall x, y :: 0 <= x < y < |r[w]| ==> IndexOf(reg.order, r[w][x]) <= IndexOf(reg.order, r[w][y])
    {
      BucketFacts(reg, w);
    }
    r
  }

  /** The buckets while entry `key` is half processed: the finished keys, then `key` once per keyword seen so far. */
  function PartialBucket(done: seq<string>, items: map<string, Meme>, key: string, seen: seq<string>, w: string): seq<string> {
    Bucket(done, items, w) + Repeat(key, Count(seen, w))
  }

  lemma PartialBucketStep(done: seq<string>, items: map<string, Meme>, key: string, keywords: seq<string>, j: nat)
    requires j < |keywords|
    ensures forall w ::
      (PartialBucket(done, items, key, keywords[..j + 1], w) ==
        if w == keywords[j] then PartialBucket(done, items, key, keywords[..j], w) + [key]
        else PartialBucket(done, items, key, keywords[..j], w))
  {
    assert keywords[..j + 1][..j] == keywords[..j];
  }

  lemma PartialBucketDone(order: seq<string>, items: map<string, Meme>, i: nat)
    requires i < |order| && order[i] in items
    ensures forall w :: PartialBucket(order[..i], items, order[i], items[order[i]].keywords, w) == Bucket(order[..i + 1], items, w)
  {
    assert order[..i + 1][..i] == order[..i];
  }

  /** One iteration of the inner loop, `after` being `before` with `key` appended to the bucket of keyword j. */
  lemma AppendStep(before: map<string, seq<string>>, after: map<string, seq<string>>, done: seq<string>,
                   items: map<string, Meme>, key: string, keywords: seq<string>, j: nat)
    requires j < |keywords|
    requires forall w :: w in before <==> PartialBucket(done, items, key, keywords[..j], w) != []
    requires forall w :: w in before ==> before[w] == PartialBucket(done, items, key, keywords[..j], w)
    requires forall w :: w in after <==> w in before || w == keywords[j]
    requires after[keywords[j]] == (if keywords[j] in before then before[keywords[j]] else []) + [key]
    requires forall w :: w in before && w != keywords[j] ==> after[w] == before[w]
    ensures forall w :: w in after <==> PartialBucket(done, items, key, keywords[..j + 1], w) != []
    ensures forall w :: w in after ==> after[w] == PartialBucket(done, items, key, keywords[..j + 1], w)
  {
    PartialBucketStep(done, items, key, keywords, j);
    forall w
      ensures w in after <==> PartialBucket(done, items, key, keywords[..j + 1], w) != []
      ensures w in after ==> after[w] == PartialBucket(done, items, key, keywords[..j + 1], w)
    {
      var p0 := PartialBucket(done, items, key, keywords[..j], w);
      var p1 := PartialBucket(done, items, key, keywords[..j + 1], w);
      if w == keywords[j] {
        assert p1 == p0 + [key];
        assert w !in before ==> p0 == [];
      } else {
        assert p1 == p0;
      }
    }
  }

  lemma PartialBucketStart(done: seq<string>, items: map<string, Meme>, key: string, keywords: seq<string>)
    ensures forall w :: PartialBucket(done, items, key, keywords[..0], w) == Bucket(done, items, w)
  {
    assert keywords[..0] == [];
  }

  /** The inner loop of `generate_meme_keywords`: append `key` to the bucket of each of its keywords. */
  method AppendKeywords(index0: map<string, seq<string>>, ghost done: seq<string>, ghost items: map<string, Meme>,
                        key: string, keywords: seq<string>) returns (index: map<string, seq<string>>)
    requires forall w :: w in index0 <==> Bucket(done, items, w) != []
    requires forall w :: w in index0 ==> index0[w] == Bucket(done, items, w)
    ensures forall w :: w in index <==> PartialBucket(done, items, key, keywords, w) != []
    ensures forall w :: w in index ==> index[w] == PartialBucket(done, items, key, keywords, w)
  {
    index := index0;
    var j := 0;
    PartialBucketStart(done, items, key, keywords);
    while j < |keywords|
      invariant 0 <= j <= |keywords|
      invariant forall w :: w in index <==> PartialBucket(done, items, key, keywords[..j], w) != []
      invariant forall w :: w in index ==> index[w] == PartialBucket(done, items, key, keywords[..j], w)
    {
      var w := keywords[j];
      ghost var before := index;
      if w !in index {
        index := index[w := []];
      }
      index := index[w := index[w] + [key]];
      AppendStep(before, index, done, items, key, keywords, j);
      j := j + 1;
    }
    assert keywords[..j] == keywords;
  }

  /** Buckets over the whole registry order are the keyword index. */
  lemma BucketsAreKeywordIndex(reg: Registry<Meme>, index: map<string, seq<string>>)
    requires reg.Valid()
    requires forall w :: w in index <==> Bucket(reg.order, reg.items, w) != []
    requires forall w :: w in index ==> index[w] == Bucket(reg.order, reg.items, w)
    ensures index == KeywordIndex(reg)
  {
    var ref := KeywordIndex(reg);
    forall w ensures (w in index <==> w in ref) && (w in index ==> index[w] == ref[w]) {
      KeywordIndexEntry(reg, w);
    }
    SameEntries(index, ref);
  }

  lemma SameEntries<K, V>(a: map<K, V>, b: map<K, V>)
    requires forall k :: (k in a <==> k in b) && (k in a ==> a[k] == b[k])
    ensures a == b
  {
  }

  lemma KeywordIndexEntry(reg: Registry<Meme>, w: string)
    requires reg.Valid()
    ensures w in KeywordIndex(reg) <==> Bucket(reg.order, reg.items, w) != []
    ensures w in KeywordIndex(reg) ==> KeywordIndex(reg)[w] == Bucket(reg.order, reg.items, w)
  {
    BucketFacts(reg, w);
  }

  /**
   * `generate_meme_keywords`, as the source writes it: walk the registry and,
   * for each keyword of each entry, create the bucket on first sight and append
   * the entry's key.
   */
  method GenerateMemeKeywords(reg: Registry<Meme>) returns (index: map<string, seq<string>>)
    requires reg.Valid()
    ensures index == KeywordIndex(reg)
  {
    index := map[];
    var i := 0;
    while i < |reg.order|
      invariant 0 <= i <= |reg.order|
      invariant forall w :: w in index <==> Bucket(reg.order[..i], reg.items, w) != []
      invariant forall w :: w in index ==> index[w] == Bucket(reg.order[..i], reg.items, w)
    {
      var key := reg.order[i];
      index := AppendKeywords(index, reg.order[..i], reg.items, key, reg.items[key].keywords);
      PartialBucketDone(reg.order, reg.items, i);
      i := i + 1;
    }
    assert reg.order[..i] == reg.order;
    BucketsAreKeywordIndex(reg, index);
  }

  // ---- generate_previews (result aggregation) ----

  /**
   * Collecting per-key render results in completion order: `rendered(k)` is
   * the extension of k's saved preview, or `None` when rendering k raised.
   */
  function AggregatePreviews(completed: seq<string>, rendered: string -> Option<string>): (r: map<string, string>)
    ensures forall k :: k in r <==> k in completed && rendered(k).Some?
    ensures forall k :: k in r ==> r[k] == PreviewPath(k, rendered(k).value)
    ensures |r| <= |completed|
  {
    if |completed| == 0 then map[]
    else
      var init := completed[..|completed| - 1];
      var k := completed[|completed| - 1];
      assert completed == init + [k];
      var acc := AggregatePreviews(init, rendered);
      match rendered(k)
      case Some(ext) => acc[k := PreviewPath(k, ext)]
      case None => acc
  }

  /** The result does not depend on the order in which renders complete. */
  lemma PreviewsIgnoreCompletionOrder(a: seq<string>, b: seq<string>, rendered: string -> Option<string>)
    requires multiset(a) == multiset(b)
    ensures AggregatePreviews(a, rendered) == AggregatePreviews(b, rendered)
  {
    forall k ensures k in a <==> k in b {
      assert k in a <==> k in multiset(a);
      assert k in b <==> k in multiset(b);
    }
  }

  /**
   * `generate_previews`: every registry key is rendered once, in some
   * completion order; the map holds exactly the keys whose render succeeded,
   * so one failure affects no other key.
   */
  function GeneratePreviews(reg: Registry<Meme>, rendered: string -> Option<string>, completed: seq<string>): (r: map<string, string>)
    requires reg.Valid() && multiset(completed) == multiset(reg.order)
    ensures forall k :: k in r <==> k in reg.items && rendered(k).Some?
    ensures forall k :: k in r ==> r[k] == PreviewPath(k, rendered(k).value)
    ensures |r| <= |reg.order|
  {
    assert forall k :: k in completed <==> k in multiset(reg.order);
    AggregatePreviews(completed, rendered)
  }

  // ---- cache validity ----

  /** `load_cache_meta`: the parsed meta, or `{}` when the file is absent or cannot be read. */
  function LoadCacheMeta(a: Artifact<MetaDoc>): (r: MetaDoc)
    ensures a.Stored? ==> r == a.value
    ensures !a.Stored? ==> r.MetaObject? && r.stateHash.None?
  {
    if a.Stored? then a.value else EmptyMeta()
  }

  /** What `is_cache_valid` does: it returns a verdict or raises. */
  datatype Checked = Returned(valid: bool) | RaisedAttributeError

  /**
   * `is_cache_valid` as written: `cache_meta.get(...)` raises `AttributeError`
   * when the meta file's top level is not a JSON object.
   */
  function IsCacheValidAsWritten(files: CacheFiles, current: map<string, string>): Checked {
    if !files.AllArtifactsExist() then Returned(false)
    else
      match LoadCacheMeta(files.cacheMeta)
      case MetaNonObject => RaisedAttributeError
      case MetaObject(_, stateHash, _, _, _) => Returned(stateHash == Some(current))
  }

  /** A meta file holding a JSON list (or any non-object) makes the check raise. */
  lemma NonObjectMetaRaises(files: CacheFiles, current: map<string, string>)
    requires files.AllArtifactsExist() && files.cacheMeta == Stored(MetaNonObject)
    ensures IsCacheValidAsWritten(files, current) == RaisedAttributeError
    ensures !IsCacheValid(files, current)
  {
  }

  /** On every other input the written check and the corrected one agree. */
  lemma IsCacheValidAgreesOtherwise(files: CacheFiles, current: map<string, string>)
    requires files.cacheMeta != Stored(MetaNonObject)
    ensures IsCacheValidAsWritten(files, current) == Returned(IsCacheValid(files, current))
  {
  }

  /**
   * `is_cache_valid`, with a non-object meta read as invalid: false when any
   * artifact is missing; otherwise true exactly when the stored `state_hash`
   * equals the current state map. Missing or unreadable meta reads as `{}`,
   * which never matches.
   */
  function IsCacheValid(files: CacheFiles, current: map<string, string>): (r: bool)
    ensures r <==> (files.AllArtifactsExist() && files.cacheMeta.Stored?
      && files.cacheMeta.value.MetaObject? && files.cacheMeta.value.stateHash == Some(current))
  {
    && files.AllArtifactsExist()
    && match LoadCacheMeta(files.cacheMeta)
       case MetaNonObject => false
       case MetaObject(_, stateHash, _, _, _) => stateHash == Some(current)
  }

  // ---- load_static_cache ----

  datatype StaticCache = StaticCache(
    memeList: seq<string>, memeInfo: map<string, InfoDoc>,
    memeKeywords: map<string, seq<string>>, meta: MetaDoc)

  /**
   * `load_static_cache`: the whole cache, or nothing (`{}`) when the cache is
   * invalid or any of the artifacts cannot be read.
   */
  function LoadStaticCache(files: CacheFiles, current: map<string, string>): (r: Option<StaticCache>)
    ensures r.Some? <==> (IsCacheValid(files, current)
      && files.memeList.Stored? && files.memeInfo.Stored? && files.memeKeywords.Stored?)
    ensures r.Some? ==> r.value == StaticCache(
      files.memeList.value, files.memeInfo.value, files.memeKeywords.value, files.cacheMeta.value)
  {
    if !IsCacheValid(files, current) then None
    else
      match (files.memeList, files.memeInfo, files.memeKeywords)
      case (Stored(list), Stored(info), Stored(keywords)) =>
        Some(StaticCache(list, info, keywords, LoadCacheMeta(files.cacheMeta)))
      case _ => None
  }

  // ---- generate_static_cache and main ----

  /** The source trees and the digest that fingerprints them. */
  datatype Sources = Sources(builtin: Dir, extras: seq<Dir>, digest: string -> string) {
    function State(): map<string, string> {
      CurrentStateHash(builtin, extras, digest)
    }
  }

  /**
   * What a scan produces: the registry after loading every module, the keys
   * whose metadata extraction raises, each key's render outcome, the order in
   * which renders complete, and the generation timestamp.
   */
  datatype Scan = Scan(
    registry: Registry<Meme>, failing: set<string>,
    rendered: string -> Option<string>, completed: seq<string>, now: string)
  {
    ghost predicate Valid() {
      registry.Valid() && multiset(completed) == multiset(registry.order)
    }
  }

  /** The `cache_meta` record written at the end of a generation run. */
  function AssembleMeta(now: string, state: map<string, string>, memeList: seq<string>,
                        previewInfo: map<string, string>, includePreviews: bool): MetaDoc
  {
    MetaObject(Some(now), Some(state), Some(|memeList|), Some(|previewInfo|), Some(includePreviews))
  }

  /** The preview file name `<key>.<ext>` for each rendered key. */
  function PreviewFiles(previewInfo: map<string, string>, rendered: string -> Option<string>): set<string> {
    set k | k in previewInfo && rendered(k).Some? :: PreviewFile(k, rendered(k).value)
  }

  /**
   * `generate_static_cache`: writes the key list, the info records, the
   * keyword index and the meta; preview files are added next to any already in
   * the preview directory.
   */
  function GenerateStaticCache(files: CacheFiles, src: Sources, scan: Scan, includePreviews: bool): (r: CacheFiles)
    requires scan.Valid()
    ensures r.memeList == Stored(GenerateMemeList(scan.registry))
    ensures r.memeInfo == Stored(GenerateMemeInfo(scan.registry, scan.failing))
    ensures r.memeKeywords == Stored(KeywordIndex(scan.registry))
    ensures r.cacheMeta.Stored? && r.cacheMeta.value.MetaObject?
    ensures r.cacheMeta.value.memeCount == Some(|scan.registry.order|)
    ensures !includePreviews ==> r.cacheMeta.value.previewCount == Some(0)
    ensures includePreviews ==> (r.cacheMeta.value.previewCount ==
      Some(|GeneratePreviews(scan.registry, scan.rendered, scan.completed)|))
    ensures r.cacheMeta.value.includePreviews == Some(includePreviews)
    ensures files.previews <= r.previews
    ensures IsCacheValid(r, src.State())
  {
    var reg := scan.registry;
    var memeList := GenerateMemeList(reg);
    assert |memeList| == |reg.order| by {
      assert |multiset(memeList)| == |multiset(reg.order)|;
    }
    var previewInfo := if includePreviews then GeneratePreviews(reg, scan.rendered, scan.completed) else map[];
    var meta := AssembleMeta(scan.now, src.State(), memeList, previewInfo, includePreviews);
    CacheFiles(
      Stored(memeList), Stored(GenerateMemeInfo(reg, scan.failing)), Stored(KeywordIndex(reg)), Stored(meta),
      files.previews + PreviewFiles(previewInfo, scan.rendered))
  }

  /**
   * The generation path of `main`: without `--force` and with a valid cache
   * nothing is regenerated; otherwise the cache is rebuilt, with previews
   * unless `--no-previews`. Either way the cache is valid afterwards, so a
   * second run over unchanged sources regenerates nothing.
   */
  function RunGenerator(force: bool, noPreviews: bool, files: CacheFiles, src: Sources, scan: Scan): (r: CacheFiles)
    requires scan.Valid()
    ensures !force && IsCacheValid(files, src.State()) ==> r == files
    ensures !(!force && IsCacheValid(files, src.State())) ==> r == GenerateStaticCache(files, src, scan, !noPreviews)
    ensures IsCacheValid(r, src.State())
  {
    if !force && IsCacheValid(files, src.State()) then files
    else GenerateStaticCache(files, src, scan, !noPreviews)
  }

  /** A second run over unchanged sources, without `--force`, regenerates nothing. */
  lemma SecondRunRegeneratesNothing(force: bool, noPreviews: bool, files: CacheFiles, src: Sources, scan: Scan)
    requires scan.Valid()
    ensures var once := RunGenerator(force, noPreviews, files, src, scan);
      RunGenerator(false, noPreviews, once, src, scan) == once
  {
  }

  /**
   * Touching a Python file of the built-in tree after a generation makes the
   * cache stale, under the idealisation that the digest has no collisions.
   */
  lemma TouchInvalidatesCache(files: CacheFiles, listing: seq<FileEntry>, extras: seq<Dir>,
                              digest: string -> string, i: nat, mtime: string)
    requires forall x, y :: digest(x) == digest(y) ==> x == y
    requires UniquePaths(listing)
    requires i < |listing| && MatchesPy(listing[i]) && listing[i].isFile && mtime != listing[i].mtime
    requires IsCacheValid(files, Sources(Present(listing), extras, digest).State())
    ensures !IsCacheValid(files, Sources(Present(Touch(listing, i, mtime)), extras, digest).State())
  {
    TouchChangesState(listing, i, mtime, extras, digest);
  }
}
