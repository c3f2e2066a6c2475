/**
 * The lazy proxy that stands in for a meme built from its cached record
 * (core/meme_generator/fast_loader.py, `LazyMeme`).
 *
 * The proxy carries the public attributes read from the record and loads the
 * real meme the first time it is called or asked for a preview that the
 * cache does not hold. Module import (`load_meme`, `load_memes`, `get_meme`
 * of the registry manager) is not part of this model: what materialisation
 * yields is given by a `Loading` environment.
 */
module LazyMemes {
  import opened Wrappers
  import opened Memes

  // ---- construction from a cached record ----

  /**
   * A proxy: the key, its cached record and cache directory, the attributes
   * read from the record, and the materialisation state (`_loaded`,
   * `_actual_meme`).
   */
  datatype LazyMeme = LazyMeme(
    key: string, info: InfoDoc, cacheDir: string,
    keywords: seq<string>, tags: set<string>, shortcuts: seq<Shortcut>, params: Params,
    loaded: bool, actual: Option<Meme>)

  /** A shortcut record misses its `key`, which makes the constructor raise `KeyError`. */
  predicate MissingShortcutKey(docs: seq<ShortcutDoc>) {
    exists i :: 0 <= i < |docs| && docs[i].key.None?
  }

  /** The shortcut built from a record that has its key; `humanized` may be absent, `args` defaults to empty. */
  function ShortcutFromDoc(d: ShortcutDoc): Shortcut
    requires d.key.Some?
  {
    Shortcut(d.key.value, d.humanized, d.args.GetOr([]))
  }

  /** The constructor's shortcut loop: every record converted, or nothing when one lacks its key. */
  function ShortcutsFromDocs(docs: seq<ShortcutDoc>): (r: Option<seq<Shortcut>>)
    ensures r.None? <==> MissingShortcutKey(docs)
    ensures r.Some? ==> (|r.value| == |docs| &&
      forall i :: 0 <= i < |docs| ==> docs[i].key.Some? && r.value[i] == ShortcutFromDoc(docs[i]))
  {
    if |docs| == 0 then Some([])
    else if docs[0].key.None? then None
    else
      match ShortcutsFromDocs(docs[1..])
      case None =>
        assert forall i :: 0 <= i < |docs| - 1 ==> docs[1..][i] == docs[i + 1];
        None
      case Some(rest) =>
        assert forall i :: 1 <= i < |docs| ==> docs[i] == docs[1..][i - 1];
        Some([ShortcutFromDoc(docs[0])] + rest)
  }

  /**
   * `MemeParamsType` from the record's `params` object: every missing bound
   * is 0, missing default texts are empty, and the argument type is always
   * left unset, whether or not the record has `args_type`.
   */
  function ParamsFromDoc(d: Option<ParamsDoc>): (r: Params)
    ensures r.argsType.None?
    ensures d.None? ==> r == Params(0, 0, 0, 0, [], None)
    ensures d.Some? ==> (r.minImages == d.value.minImages.GetOr(0) && r.maxImages == d.value.maxImages.GetOr(0)
      && r.minTexts == d.value.minTexts.GetOr(0) && r.maxTexts == d.value.maxTexts.GetOr(0)
      && r.defaultTexts == d.value.defaultTexts.GetOr([]))
  {
    var p := d.GetOr(ParamsDoc(None, None, None, None, None));
    Params(p.minImages.GetOr(0), p.maxImages.GetOr(0), p.minTexts.GetOr(0), p.maxTexts.GetOr(0),
      p.defaultTexts.GetOr([]), None)
  }

  function SeqToSet(s: seq<string>): (r: set<string>)
    ensures forall t :: t in r <==> t in s
  {
    set t | t in s
  }

  /**
   * `LazyMeme(key, info, cache_dir)`: `None` when the constructor raises, which
   * happens exactly when a shortcut record lacks its key. Otherwise the proxy
   * starts unloaded, with the record's keywords, its tags as a set, and
   * defaults for every absent field.
   */
  function NewLazyMeme(key: string, info: InfoDoc, cacheDir: string): (r: Option<LazyMeme>)
    ensures r.None? <==> info.shortcuts.Some? && MissingShortcutKey(info.shortcuts.value)
    ensures r.Some? ==> (r.value.key == key && r.value.info == info && r.value.cacheDir == cacheDir
      && !r.value.loaded && r.value.actual.None?)
    ensures r.Some? ==> (r.value.keywords == info.keywords.GetOr([])
      && (forall t :: t in r.value.tags <==> info.tags.Some? && t in info.tags.value)
      && r.value.params == ParamsFromDoc(info.params) && r.value.params.argsType.None?)
    ensures r.Some? ==> (|r.value.shortcuts| == |info.shortcuts.GetOr([])| &&
      forall i :: 0 <= i < |r.value.shortcuts| ==>
        info.shortcuts.value[i].key.Some? && r.value.shortcuts[i] == ShortcutFromDoc(info.shortcuts.value[i]))
  {
    match ShortcutsFromDocs(info.shortcuts.GetOr([]))
    case None => None
    case Some(shortcuts) =>
      Some(LazyMeme(key, info, cacheDir, info.keywords.GetOr([]), SeqToSet(info.tags.GetOr([])),
        shortcuts, ParamsFromDoc(info.params), false, None))
  }

  // ---- materialisation ----

  /** Where the real meme is looked for: the built-in tree, the i-th extra directory, or nowhere. */
  datatype Source = Builtin | ExtraDir(index: nat) | NoSource

  /** Position of the first `true` in `s`, or `|s|`. */
  function FirstTrue(s: seq<bool>): (i: nat)
    ensures i <= |s| && (i < |s| ==> s[i])
    ensures forall j :: 0 <= j < i ==> !s[j]
  {
    if |s| == 0 then 0 else if s[0] then 0 else 1 + FirstTrue(s[1..])
  }

  /**
   * The search of `_load_actual_meme`: the built-in tree when it holds an
   * entry (file or directory) named after the key, else the first extra
   * directory that does, else nothing.
   */
  function MaterialisationSource(builtinHas: bool, extraHas: seq<bool>): (r: Source)
    ensures r == Builtin <==> builtinHas
    ensures r.ExtraDir? ==> (!builtinHas && r.index < |extraHas| && extraHas[r.index]
      && forall j :: 0 <= j < r.index ==> !extraHas[j])
    ensures r == NoSource <==> !builtinHas && forall j :: 0 <= j < |extraHas| ==> !extraHas[j]
  {
    if builtinHas then Builtin
    else
      var i := FirstTrue(extraHas);
      if i < |extraHas| then ExtraDir(i) else NoSource
  }

  /** What one materialisation attempt yields: it raises, or `get_meme` returns a meme or nothing. */
  datatype LoadOutcome = LoadRaised | Obtained(meme: Option<Meme>)

  /**
   * The loading environment: which trees hold an entry named after a key, and what
   * loading from a source and then `get_meme(key)` yields.
   */
  datatype Loading = Loading(
    builtinHas: string -> bool, extraHas: seq<string -> bool>, obtain: (string, Source) -> LoadOutcome)
  {
    function SourceOf(key: string): Source {
      MaterialisationSource(builtinHas(key), seq(|extraHas|, i requires 0 <= i < |extraHas| => extraHas[i](key)))
    }

    function Outcome(key: string): LoadOutcome {
      obtain(key, SourceOf(key))
    }
  }

  datatype Materialised = Materialised(proxy: LazyMeme, raised: bool)

  /**
   * `_load_actual_meme`: nothing happens once loaded; otherwise a raising
   * attempt re-raises and leaves the proxy unloaded, so a later attempt
   * tries again, and a completed attempt stores what `get_meme` returned
   * and marks the proxy loaded even when that is nothing.
   */
  function LoadActualMeme(p: LazyMeme, env: Loading): (r: Materialised)
    ensures p.loaded ==> r == Materialised(p, false)
    ensures r.raised <==> !p.loaded && env.Outcome(p.key).LoadRaised?
    ensures r.raised ==> r.proxy == p
    ensures !p.loaded && env.Outcome(p.key).Obtained? ==>
      r.proxy.loaded && r.proxy.actual == env.Outcome(p.key).meme
    ensures r.proxy.(loaded := p.loaded, actual := p.actual) == p
  {
    if p.loaded then Materialised(p, false)
    else
      match env.Outcome(p.key)
      case LoadRaised => Materialised(p, true)
      case Obtained(m) => Materialised(p.(loaded := true, actual := m), false)
  }

  // ---- calling ----

  /** The arguments of one render call. */
  datatype Request = Request(images: seq<string>, texts: seq<string>, args: string)

  /**
   * The outcome of a render call: the output of a real meme's render function
   * on the request, the materialisation error re-raised, or `RuntimeError`
   * when materialisation yielded no meme.
   */
  datatype CallResult = Output(renderer: nat, request: Request) | LoadError | RuntimeError

  /**
   * What the real meme's `function` attribute produces on a request; calling a
   * real entry is modelled as this, the meme's own `__call__` being outside
   * this model.
   */
  function Render(m: Meme, req: Request): CallResult {
    Output(m.renderer, req)
  }

  datatype Called = Called(proxy: LazyMeme, result: CallResult)

  /**
   * `__call__`, which delegates to `_lazy_function` (also installed as the
   * proxy's `function`): materialise, then forward to the real meme's render
   * function, or raise.
   */
  function CallLazy(p: LazyMeme, req: Request, env: Loading): (r: Called)
    ensures r.proxy == LoadActualMeme(p, env).proxy
    ensures r.result == LoadError <==> !p.loaded && env.Outcome(p.key).LoadRaised?
    ensures r.result.Output? <==> !LoadActualMeme(p, env).raised && r.proxy.actual.Some?
    ensures r.result == RuntimeError <==> !LoadActualMeme(p, env).raised && r.proxy.actual.None?
    ensures r.result.Output? ==> r.result == Render(r.proxy.actual.value, req)
    ensures p.loaded ==> r.proxy == p
  {
    var m := LoadActualMeme(p, env);
    if m.raised then Called(m.proxy, LoadError)
    else
      match m.proxy.actual
      case Some(actual) => Called(m.proxy, Render(actual, req))
      case None => Called(m.proxy, RuntimeError)
  }

  /** Once a call has materialised the meme, every later call renders with it, whatever the environment. */
  lemma LoadedCallsAreStable(p: LazyMeme, req: Request, req2: Request, env: Loading, env2: Loading)
    requires !CallLazy(p, req, env).result.LoadError?
    ensures var q := CallLazy(p, req, env).proxy;
      CallLazy(q, req2, env2) == Called(q, if q.actual.Some? then Render(q.actual.value, req2) else RuntimeError)
  {
  }

  /** A failed materialisation is not remembered: a later call in an environment that yields the meme renders. */
  lemma RetryAfterLoadError(p: LazyMeme, req: Request, env: Loading, env2: Loading, m: Meme)
    requires CallLazy(p, req, env).result == LoadError
    requires env2.Outcome(p.key) == Obtained(Some(m))
    ensures CallLazy(CallLazy(p, req, env).proxy, req, env2).result == Render(m, req)
  {
  }

  // ---- previews ----

  /** A preview: a cached file's path, a freshly rendered one, or an error. */
  datatype PreviewResult = CachedPreview(path: string) | DynamicPreview(renderer: nat) | PreviewLoadError | PreviewRuntimeError

  datatype Previewed = Previewed(proxy: LazyMeme, result: PreviewResult)

  /** Some cached preview file of `key` exists. */
  predicate HasCachedPreview(key: string, previews: set<string>) {
    PreviewFile(key, "jpg") in previews || PreviewFile(key, "png") in previews || PreviewFile(key, "gif") in previews
  }

  /**
   * `generate_preview`: the first of `<key>.jpg`, `<key>.png`, `<key>.gif`
   * present under `previews/`; only when none is present is the meme
   * materialised and its own preview rendered.
   */
  function GeneratePreview(p: LazyMeme, previews: set<string>, env: Loading): (r: Previewed)
    ensures r.result.CachedPreview? <==> HasCachedPreview(p.key, previews)
    ensures HasCachedPreview(p.key, previews) ==> r.proxy == p
    ensures PreviewFile(p.key, "jpg") in previews ==> r.result == CachedPreview(PreviewPath(p.key, "jpg"))
    ensures PreviewFile(p.key, "jpg") !in previews && PreviewFile(p.key, "png") in previews ==>
      r.result == CachedPreview(PreviewPath(p.key, "png"))
    ensures (PreviewFile(p.key, "jpg") !in previews && PreviewFile(p.key, "png") !in previews
      && PreviewFile(p.key, "gif") in previews) ==> r.result == CachedPreview(PreviewPath(p.key, "gif"))
    ensures !HasCachedPreview(p.key, previews) ==> (r.proxy == LoadActualMeme(p, env).proxy
      && (r.result == PreviewLoadError <==> LoadActualMeme(p, env).raised)
      && (r.result.DynamicPreview? <==> !LoadActualMeme(p, env).raised && r.proxy.actual.Some?)
      && (r.result.DynamicPreview? ==> r.result.renderer == r.proxy.actual.value.renderer))
  {
    if PreviewFile(p.key, "jpg") in previews then Previewed(p, CachedPreview(PreviewPath(p.key, "jpg")))
    else if PreviewFile(p.key, "png") in previews then Previewed(p, CachedPreview(PreviewPath(p.key, "png")))
    else if PreviewFile(p.key, "gif") in previews then Previewed(p, CachedPreview(PreviewPath(p.key, "gif")))
    else
      var m := LoadActualMeme(p, env);
      if m.raised then Previewed(m.proxy, PreviewLoadError)
      else
        match m.proxy.actual
        case Some(actual) => Previewed(m.proxy, DynamicPreview(actual.renderer))
        case None => Previewed(m.proxy, PreviewRuntimeError)
  }

  // ---- registry entries ----

  /** An entry of `_memes`: a fully loaded meme or a proxy for one. */
  datatype Entry = Real(meme: Meme) | Lazy(proxy: LazyMeme)

  /** Calling an entry: a real meme runs its `function` directly, a proxy goes through `CallLazy`. */
  function CallEntry(e: Entry, req: Request, env: Loading): (r: (Entry, CallResult))
    ensures e.Real? ==> r == (e, Render(e.meme, req))
    ensures e.Lazy? ==> r.0.Lazy? && r.0.proxy.key == e.proxy.key
    ensures e.Lazy? ==> r == (Lazy(CallLazy(e.proxy, req, env).proxy), CallLazy(e.proxy, req, env).result)
  {
    match e
    case Real(m) => (e, Render(m, req))
    case Lazy(p) =>
      var c := CallLazy(p, req, env);
      (Lazy(c.proxy), c.result)
  }

  /**
   * A proxy whose materialisation yields meme `m` answers every call as `m`'s
   * `function` does, on the first call and on every later one.
   */
  lemma LazyAgreesWithReal(p: LazyMeme, m: Meme, req: Request, req2: Request, env: Loading, env2: Loading)
    requires !p.loaded && env.Outcome(p.key) == Obtained(Some(m))
    ensures CallEntry(Lazy(p), req, env).1 == CallEntry(Real(m), req, env).1
    ensures var e := CallEntry(Lazy(p), req, env).0;
      CallEntry(e, req2, env2).1 == CallEntry(Real(m), req2, env2).1
  {
  }
}
