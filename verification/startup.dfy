/**
 * What importing the package does (core/meme_generator/__init__.py): read the
 * `MEME_FAST_LOADING` switch, try the fast loader, and fall back to the
 * standard loading plan when fast loading is off or fails.
 */
module Startup {
  import opened Wrappers
  import opened Memes
  import opened LazyMemes
  import opened FastLoader
  import opened StaticGenerator

  // ---- the MEME_FAST_LOADING switch ----

  predicate IsUpper(c: char) {
    'A' <= c <= 'Z'
  }

  /** ASCII lowercasing of one character. */
  function LowerChar(c: char): (r: char)
    ensures IsUpper(c) ==> r as int == c as int + 32
    ensures !IsUpper(c) ==> r == c
  {
    if IsUpper(c) then (c as int + 32) as char else c
  }

  /** `str.lower()` restricted to ASCII letters (see the README for why this suffices here). */
  function Lower(s: string): (r: string)
    ensures |r| == |s|
    ensures forall i :: 0 <= i < |s| ==> r[i] == LowerChar(s[i])
  {
    seq(|s|, i requires 0 <= i < |s| => LowerChar(s[i]))
  }

  /** The spellings the switch accepts, all lower case. */
  const Accepted: set<string> := {"true", "1", "yes"}

  /**
   * `os.getenv("MEME_FAST_LOADING", "true").lower() in ("true", "1", "yes")`:
   * an unset variable means on.
   */
  function FastLoadingFlag(env: Option<string>): (r: bool)
    ensures env.None? ==> r
  {
    var v := Lower(env.GetOr("true"));
    assert env.None? ==> v == "true";
    v in Accepted
  }

  /**
   * Reference reading of "matches `word` ignoring case": same length, and at
   * each position the word's character or, for a letter, its upper-case form.
   */
  predicate CaseVariant(v: string, word: string) {
    |v| == |word| &&
    forall i :: 0 <= i < |word| ==>
      v[i] == word[i] || ('a' <= word[i] <= 'z' && v[i] as int == word[i] as int - 32)
  }

  /** A word of lower-case letters and digits. */
  predicate LowerWord(word: string) {
    forall i :: 0 <= i < |word| ==> 'a' <= word[i] <= 'z' || '0' <= word[i] <= '9'
  }

  lemma LowerMatchesCaseVariant(v: string, word: string)
    requires LowerWord(word)
    ensures Lower(v) == word <==> CaseVariant(v, word)
  {
    if Lower(v) == word {
      forall i | 0 <= i < |word|
        ensures v[i] == word[i] || ('a' <= word[i] <= 'z' && v[i] as int == word[i] as int - 32)
      {
        assert Lower(v)[i] == LowerChar(v[i]);
      }
    }
    if CaseVariant(v, word) {
      forall i | 0 <= i < |word| ensures Lower(v)[i] == word[i] {
        assert Lower(v)[i] == LowerChar(v[i]);
      }
    }
  }

  /** The switch is on exactly when the value spells `true`, `1` or `yes` in any mix of cases. */
  lemma FlagIgnoresCase(v: string)
    ensures FastLoadingFlag(Some(v)) <==> CaseVariant(v, "true") || CaseVariant(v, "1") || CaseVariant(v, "yes")
  {
    LowerMatchesCaseVariant(v, "true");
    LowerMatchesCaseVariant(v, "1");
    LowerMatchesCaseVariant(v, "yes");
  }

  // ---- the standard loading plan ----

  /** An entry of the built-in memes directory, in iteration order. */
  datatype Child = Child(name: string, isDir: bool)

  /** One call of the standard loader: `load_meme("meme_generator.memes.<name>")` or `load_memes(dir)`. */
  datatype LoadStep = LoadBuiltinMeme(name: string) | LoadMemeDir(dir: string)

  /** A built-in child that is loaded: a directory whose name does not start with `_`. */
  predicate LoadableChild(c: Child) {
    c.isDir && !(|c.name| > 0 && c.name[0] == '_')
  }

  /** The built-in loop: one step per loadable child, in iteration order. */
  function BuiltinSteps(children: seq<Child>): (r: seq<LoadStep>)
    ensures forall st :: st in r ==> st.LoadBuiltinMeme?
    ensures forall n :: LoadBuiltinMeme(n) in r <==> exists c :: c in children && LoadableChild(c) && c.name == n
    ensures |r| <= |children|
  {
    if |children| == 0 then []
    else
      var rest := BuiltinSteps(children[1..]);
      assert forall c :: c in children <==> c == children[0] || c in children[1..];
      if LoadableChild(children[0]) then [LoadBuiltinMeme(children[0].name)] + rest else rest
  }

  /**
   * The package's configuration: `load_builtin_memes`, the built-in
   * directory's entries (`None` when the directory does not exist) and
   * `meme_dirs`.
   */
  datatype Config = Config(loadBuiltin: bool, children: Option<seq<Child>>, memeDirs: seq<string>)

  /** The standard loading path: its loader calls, or the `FileNotFoundError` of `iterdir` on a missing built-in directory. */
  datatype Plan = Steps(steps: seq<LoadStep>) | BuiltinDirMissing

  /** A built-in template of the configuration that the standard path loads. */
  predicate LoadsBuiltin(cfg: Config, n: string) {
    cfg.loadBuiltin && cfg.children.Some? && exists c :: c in cfg.children.value && LoadableChild(c) && c.name == n
  }

  /**
   * The standard plan: the built-in memes first, only when `load_builtin_memes`
   * is set, then every configured extra directory once, in configured order.
   * Iterating a built-in directory that does not exist raises, and nothing
   * is loaded.
   */
  function StandardPlan(cfg: Config): (r: Plan)
    ensures r.BuiltinDirMissing? <==> cfg.loadBuiltin && cfg.children.None?
    ensures r.Steps? ==> |r.steps| >= |cfg.memeDirs|
    ensures r.Steps? ==> forall i :: 0 <= i < |cfg.memeDirs| ==>
      r.steps[|r.steps| - |cfg.memeDirs| + i] == LoadMemeDir(cfg.memeDirs[i])
    ensures r.Steps? ==> forall i :: 0 <= i < |r.steps| - |cfg.memeDirs| ==> r.steps[i].LoadBuiltinMeme?
    ensures r.Steps? ==> forall n :: LoadBuiltinMeme(n) in r.steps <==> LoadsBuiltin(cfg, n)
  {
    if cfg.loadBuiltin && cfg.children.None? then BuiltinDirMissing
    else
      var builtin := if cfg.loadBuiltin then BuiltinSteps(cfg.children.value) else [];
      var dirs := seq(|cfg.memeDirs|, i requires 0 <= i < |cfg.memeDirs| => LoadMemeDir(cfg.memeDirs[i]));
      var r := builtin + dirs;
      assert forall i :: 0 <= i < |builtin| ==> r[i] == builtin[i] && builtin[i] in builtin;
      forall n ensures LoadBuiltinMeme(n) in r <==> LoadBuiltinMeme(n) in builtin {
        if LoadBuiltinMeme(n) in r {
          var i :| 0 <= i < |r| && r[i] == LoadBuiltinMeme(n);
          assert i < |builtin|;
        }
      }
      Steps(r)
  }

  /**
   * `load_builtin_memes` only adds loads in front: the plan without the
   * built-in templates is a suffix of the plan with them, and holds exactly
   * the extra directories.
   */
  lemma BuiltinFlagOnlyPrepends(cfg: Config)
    requires cfg.children.Some?
    ensures var with := StandardPlan(cfg.(loadBuiltin := true));
      var without := StandardPlan(cfg.(loadBuiltin := false));
      && with.Steps? && without.Steps?
      && |without.steps| == |cfg.memeDirs|
      && |with.steps| >= |without.steps|
      && with.steps[|with.steps| - |without.steps|..] == without.steps
  {
    var dirs := seq(|cfg.memeDirs|, i requires 0 <= i < |cfg.memeDirs| => LoadMemeDir(cfg.memeDirs[i]));
    var builtin := BuiltinSteps(cfg.children.value);
    assert StandardPlan(cfg.(loadBuiltin := true)) == Steps(builtin + dirs);
    assert StandardPlan(cfg.(loadBuiltin := false)) == Steps([] + dirs);
    assert (builtin + dirs)[|builtin|..] == dirs;
  }

  // ---- importing the package ----

  /** The outcome of the import: whether fast loading took over, the loader, the registry, and the standard path run. */
  datatype Imported = Imported(fastEnabled: bool, loader: LoaderState, registry: Registry<Entry>, plan: Plan)

  /**
   * The package's import-time logic, with the loader import creates for
   * `cacheDir`. `importOk` says whether importing the fast loader succeeds.
   * With the switch on and the loader importable, the cache is loaded only
   * when all four artifacts exist; when fast loading did not take over, the
   * standard plan runs instead. Nothing compares the cache with the sources.
   */
  function InitPackage(env: Option<string>, importOk: bool, cacheDir: string, files: CacheFiles,
                       reg: Registry<Entry>, cfg: Config): (r: Imported)
    requires reg.Valid()
    ensures r.fastEnabled <==> FastLoadingFlag(env) && importOk && AllReadable(files)
    ensures r.fastEnabled ==> (r.plan == Steps([])
      && r.registry == EnableFastLoading(Fresh(cacheDir), files, reg).registry
      && r.loader == LoadedFrom(Fresh(cacheDir), files))
    ensures !r.fastEnabled ==> (r.plan == StandardPlan(cfg) && r.registry == reg
      && !r.loader.loaded && Served(r.loader) == Served(Fresh(cacheDir)))
  {
    var initial := Fresh(cacheDir);
    var tried :=
      if FastLoadingFlag(env) && importOk && IsCacheAvailable(files) then EnableFastLoadingAsWritten(initial, files, reg)
      else Enabled(initial, reg, false);
    EnableFastLoadingAgreesUnlessReloadFails(initial, files, reg);
    if tried.ok then Imported(true, tried.state, tried.registry, Steps([]))
    else Imported(false, tried.state, reg, StandardPlan(cfg))
  }

  /** Switching fast loading off always runs the standard plan and leaves the cache unread. */
  lemma SwitchOffMeansStandardLoading(v: string, importOk: bool, cacheDir: string, files: CacheFiles,
                                      reg: Registry<Entry>, cfg: Config)
    requires reg.Valid()
    requires !CaseVariant(v, "true") && !CaseVariant(v, "1") && !CaseVariant(v, "yes")
    ensures var r := InitPackage(Some(v), importOk, cacheDir, files, reg, cfg);
      !r.fastEnabled && r.plan == StandardPlan(cfg) && r.loader == Fresh(cacheDir)
  {
    FlagIgnoresCase(v);
  }

  /**
   * The import never looks at `state_hash`: a cache that is stale for the
   * current sources, but whose four files parse, still replaces standard
   * loading.
   */
  lemma StaleCacheStillTakesOver(importOk: bool, cacheDir: string, files: CacheFiles, current: map<string, string>,
                                 reg: Registry<Entry>, cfg: Config)
    requires reg.Valid() && importOk
    requires AllReadable(files) && !IsCacheValid(files, current)
    ensures var r := InitPackage(None, importOk, cacheDir, files, reg, cfg);
      r.fastEnabled && r.plan == Steps([])
  {
  }
}
