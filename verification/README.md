# Meme catalog metadata cache, modelled in Dafny

meme-generator keeps a registry of meme templates. Each template is a
Python module, and loading every module at start-up is slow. This part of the
repository adds a metadata cache with two sides:

- **The static generator** (`core/static_generator.py`) loads every template
  once. It writes four JSON artifacts into a cache directory:
  - the sorted key list;
  - one metadata record per template;
  - a keyword → keys index;
  - a meta record carrying a fingerprint of the source trees.

  It also renders preview images. A run is skipped when the stored
  fingerprint still matches the trees.
- **The fast loader** (`core/meme_generator/fast_loader.py`) reads the four
  artifacts when the package is imported. It fills the registry with
  `LazyMeme` proxies built from the records. A proxy imports its real
  template the first time it is called. It serves a preview from the cache
  when one was rendered.
- **The package's import logic** (`core/meme_generator/__init__.py`) reads the
  `MEME_FAST_LOADING` switch. It tries the fast loader and falls back to the
  standard plan: every built-in template directory, then every configured
  extra directory.

The model is pure functions over immutable data:

| file | contents |
|---|---|
| `wrappers.dfy` | `Option` |
| `ordering.dfy` | Lexicographic order, as Python compares `str` and path parts, proved a strict total order |
| `sorting.dfy` | Insertion sort, and the fact that strictly sorted sequences with the same elements are equal |
| `memes.dfy` | Templates, the registry (`_memes`: insertion order plus entries), the JSON documents and the cache directory |
| `fingerprint.dfy` | `calculate_directory_hash` and `get_current_state_hash` |
| `static_generator.dfy` | Key list, records, keyword index, preview aggregation, validity check, `load_static_cache`, a generation run and the skip logic of `main` |
| `lazy_meme.dfy` | `LazyMeme`: construction from a record, materialisation, calls and previews |
| `fast_loader.dfy` | `FastMemeLoader`, `create_lazy_meme_objects` and `enable_fast_loading` |
| `startup.dfy` | The `MEME_FAST_LOADING` switch and the import-time choice of loading path |
| `pipeline.dfy` | End-to-end properties: what the generator writes, the loader reads back and serves |

Abstractions:

- **Hashing.** MD5 is a parameter `digest: string -> string`. It is applied
  to the concatenation of everything passed to `update`, which is what a
  sequence of `update` calls hashes. A file's mtime is the text
  `str(st_mtime)`, taken as given.
- **Registry.** The registry is a `Registry<E>`: the keys in insertion order
  plus a map. `get_meme_keys()` and `get_memes()` iterate in that order.
- **Loading templates.** Importing template modules, and what `get_meme`
  returns afterwards, belong to `manager.py`, which is not part of this model.
  For a generation run, the outcome is a `Scan`:
  - the registry after loading;
  - the keys whose metadata extraction raises;
  - each key's render result;
  - the order in which renders complete.

  For a proxy, the outcome is a `Loading` environment: which trees hold the
  key, and what loading from that tree yields.
- **Artifacts.** Each artifact is `Absent`, `Unreadable` (open or parse
  raises) or `Stored(value)`.

Behaviour of the code that a reader might not expect, and that the model
keeps:

- **Failed metadata extraction.** An entry whose extraction raises is still
  in the key list and the keyword index; only its record is missing
  (`StaticGenerator.InfoKeysWithinMemeList`).
- **Partial loads.** A `load_cache` that fails part-way keeps the files it
  had read, and after an earlier success it stays loaded (the second finding;
  `FastLoader.LoadCacheAsWritten`).
- **Stale caches at import.** The import path checks only that the four
  files exist and parse; it never compares `state_hash` with the sources, so
  a stale cache still replaces standard loading
  (`Startup.StaleCacheStillTakesOver`).
- **Meta write failures.** `save_cache_meta` logs a failure to write the meta
  file and carries on (see Left out).

## Model

| member | source | states |
|---|---|---|
| Ordering.StrLessIsStrictTotalOrder | core/static_generator.py:156 | The order `sorted` uses on keys is irreflexive, transitive and total, so the sorted key list is determined by the key set |
| Ordering.PathLessIsStrictTotalOrder | core/static_generator.py:49 | Paths compare part by part; that order is a strict total order, so the visiting order of the tree walk is determined |
| Sorting.SortStrictlySorted | core/static_generator.py:156 | Sorting distinct keys under a transitive order that relates every pair yields a strictly increasing sequence |
| Sorting.StrictlySortedUnique | core/static_generator.py:156 | Two strictly increasing sequences with the same elements are equal, so the sorted order does not depend on the registry's order |
| Fingerprint.Matches | core/static_generator.py:49 | The walk keeps exactly the entries whose name ends in `.py`, and it keeps distinct paths distinct |
| Fingerprint.DirectoryHash | core/static_generator.py:43-54 | A missing directory hashes to the empty string; for 32-character digests, the hash is empty only for a missing directory |
| Fingerprint.VisitOrderMembers | core/static_generator.py:49-50 | The visited entries are exactly the `.py` entries of the tree |
| Fingerprint.EnumerationOrderIrrelevant | core/static_generator.py:49-53 | Two listings of the same files, in any enumeration order, hash the same |
| Fingerprint.TouchChangesHashInput | core/static_generator.py:49-53 | Changing the mtime of one `.py` file changes the text that is hashed |
| Fingerprint.CurrentStateHash | core/static_generator.py:56-70 | `builtin` is present iff the built-in tree exists, and `extra_<i>` iff the i-th extra directory exists; each holds that tree's hash and there are no other keys |
| Fingerprint.ExtraKeyInjective | core/static_generator.py:66-68 | Distinct extra directories get distinct keys, and none of them is `builtin` |
| Fingerprint.TouchChangesState | core/static_generator.py:56-70 | Under a collision-free digest, touching a `.py` file of the built-in tree changes the state map |
| StaticGenerator.GenerateMemeList | core/static_generator.py:154-156 | The key list is strictly ascending, is a permutation of the registry's keys, and lists a key iff the registry holds it |
| StaticGenerator.OptionToDoc | core/static_generator.py:191-197 | A parser option's `action` is written as null exactly when the action is absent or falsy, and otherwise as its text |
| StaticGenerator.ExtractInfo | core/static_generator.py:165-199 | A record is never empty and carries its key; `args_type` is present iff the template has an argument type, with one entry per parser option in order |
| StaticGenerator.GenerateMemeInfo | core/static_generator.py:158-205 | Every registry entry has a record except those whose extraction raises; a failure drops only its own entry |
| StaticGenerator.InfoKeysWithinMemeList | core/static_generator.py:154-205 | Every recorded key is in the key list, and an entry whose extraction failed is still listed |
| StaticGenerator.BucketFollowsOrder | core/static_generator.py:208-218 | Within one keyword's bucket, keys appear in registry iteration order |
| StaticGenerator.KeywordIndex | core/static_generator.py:208-218 | Reference index: a keyword is present iff some entry has it; a key is in a keyword's bucket iff that entry lists the keyword; no bucket is empty; buckets follow registry order |
| StaticGenerator.GenerateMemeKeywords | core/static_generator.py:208-218 | The loop that creates buckets on first sight and appends keys computes exactly the reference index |
| StaticGenerator.AggregatePreviews | core/static_generator.py:254-262 | A key has a preview path iff it completed with a saved file; the path is `previews/<key>.<ext>`; there are never more entries than completions |
| StaticGenerator.PreviewsIgnoreCompletionOrder | core/static_generator.py:254-262 | The aggregated previews do not depend on the order in which renders complete |
| StaticGenerator.GeneratePreviews | core/static_generator.py:220-268 | Over all registry keys, a key has a preview iff its render succeeded; one failing render drops only that key |
| StaticGenerator.NonObjectMetaRaises | core/static_generator.py:100-103 | As written, a meta file whose top level is not an object makes the validity check raise `AttributeError` |
| StaticGenerator.IsCacheValidAgreesOtherwise | core/static_generator.py:90-103 | On every other input, the written check and the corrected one return the same answer |
| StaticGenerator.IsCacheValid | core/static_generator.py:90-103 | The cache is valid iff all four artifacts exist and the stored `state_hash` equals the current state map; unreadable or missing meta never matches |
| StaticGenerator.LoadStaticCache | core/static_generator.py:317-346 | The whole cache is returned iff it is valid and every artifact parses; otherwise nothing is returned |
| StaticGenerator.GenerateStaticCache | core/static_generator.py:270-306 | A run writes the key list, records, index and meta; `meme_count` counts all keys and `preview_count` counts successful renders (0 without previews); older preview files stay; the result is valid for the scanned sources |
| StaticGenerator.RunGenerator | core/static_generator.py:373-379 | Without `--force`, a valid cache is left as is; otherwise it is regenerated, with previews unless `--no-previews`; either way the cache is valid afterwards |
| StaticGenerator.SecondRunRegeneratesNothing | core/static_generator.py:373-376 | A second run over unchanged sources without `--force` changes nothing |
| StaticGenerator.TouchInvalidatesCache | core/static_generator.py:90-103 | Under a collision-free digest, touching a built-in `.py` file after a run makes the cache invalid |
| LazyMemes.ShortcutsFromDocs | core/meme_generator/fast_loader.py:141-148 | Shortcut records convert one for one, in order, with absent `args` read as empty; the conversion fails iff some record lacks `key` |
| LazyMemes.ParamsFromDoc | core/meme_generator/fast_loader.py:158-173 | Missing bounds read as 0 and missing default texts as empty; the argument type is always unset |
| LazyMemes.NewLazyMeme | core/meme_generator/fast_loader.py:130-176 | Construction raises iff a shortcut lacks its key; otherwise the proxy starts unloaded, with the record's keywords, tags as a set, and defaults for absent fields |
| LazyMemes.MaterialisationSource | core/meme_generator/fast_loader.py:188-198 | The real template is looked for in the built-in tree first, then in the first extra directory holding the key, else nowhere |
| LazyMemes.LoadActualMeme | core/meme_generator/fast_loader.py:178-207 | Nothing happens once loaded; a raising attempt leaves the proxy unchanged (failure is not sticky); a completed attempt stores what was obtained and marks the proxy loaded; no other field changes |
| LazyMemes.CallLazy | core/meme_generator/fast_loader.py:209-215 | A call materialises, then renders with the real template, re-raises a load error, or raises `RuntimeError` when no template was obtained |
| LazyMemes.LoadedCallsAreStable | core/meme_generator/fast_loader.py:178-182 | After a call that did not raise, every later call answers from the stored template, whatever the environment |
| LazyMemes.RetryAfterLoadError | core/meme_generator/fast_loader.py:205-207 | After a failed materialisation, a later call in an environment that yields the template renders with it |
| LazyMemes.GeneratePreview | core/meme_generator/fast_loader.py:217-237 | A preview is served from the first of jpg, png, gif present, without materialising; only when none is present is the template materialised and its own preview rendered |
| LazyMemes.CallEntry | core/meme_generator/fast_loader.py:239-241 | Calling a registry entry: a real template runs its `function` directly; a proxy's call is exactly `CallLazy` (materialise, then forward or raise), and the entry stays a proxy for the same key |
| LazyMemes.LazyAgreesWithReal | core/meme_generator/fast_loader.py:209-213 | A proxy whose materialisation yields template m answers the first and every later call as m's `function` does |
| FastLoader.Fresh | core/meme_generator/fast_loader.py:21-24 | A new loader is not loaded |
| FastLoader.IsCacheAvailable | core/meme_generator/fast_loader.py:26-34 | The cache is available iff none of the four artifacts is absent |
| FastLoader.LoadCacheAsWritten | core/meme_generator/fast_loader.py:36-70 | As written: succeeds iff every artifact parses; a failure leaves `loaded` and the meta slot as they were, holds the new value in each slot whose read and all earlier reads succeeded, and keeps the old value in every slot not reached |
| FastLoader.FailedReloadMixesGenerations | core/meme_generator/fast_loader.py:36-70 | As written, a failed reload after a success claims to be loaded while listing new keys and serving old records |
| FastLoader.LoadCache | core/meme_generator/fast_loader.py:36-70 | Corrected load: succeeds iff every artifact parses, storing all four; a failure leaves the loader exactly as it was |
| FastLoader.LoadCacheServesOneGeneration | core/meme_generator/fast_loader.py:36-70 | After the corrected load, the accessors serve either the previous data or the files just read, never a mix |
| FastLoader.LoadCacheAgreesUnlessReloadFails | core/meme_generator/fast_loader.py:36-70 | From an unloaded loader, or when the load succeeds, the written and corrected loads report and serve the same |
| FastLoader.GetMemeList | core/meme_generator/fast_loader.py:72-76 | The key list is empty until loaded |
| FastLoader.GetMemeInfo | core/meme_generator/fast_loader.py:78-82 | A record is returned iff the loader is loaded and holds a record for the key |
| FastLoader.GetMemeKeywords | core/meme_generator/fast_loader.py:84-88 | The index is empty until loaded |
| FastLoader.SearchMemeByKeyword | core/meme_generator/fast_loader.py:90-93 | Search returns the keyword's bucket, or empty for an unknown keyword or an unloaded loader |
| FastLoader.GetCacheMeta | core/meme_generator/fast_loader.py:95-99 | The meta is `{}` until loaded |
| FastLoader.AccessorsAfterLoad | core/meme_generator/fast_loader.py:72-99 | After a successful load, every accessor answers from the files just read |
| FastLoader.AddLazies | core/meme_generator/fast_loader.py:108-122 | Keys already registered keep their entries; a listed key gets a proxy iff it has a non-empty record that builds one; new keys are appended |
| FastLoader.CreateLazyMemeObjects | core/meme_generator/fast_loader.py:101-124 | Until loaded nothing changes; afterwards the registry gains a proxy for every creatable listed key that is not yet registered, and nothing else |
| FastLoader.CreateLazyMemeObjectsIdempotent | core/meme_generator/fast_loader.py:108-110 | Creating the proxies a second time changes nothing |
| FastLoader.EnableFastLoading | core/meme_generator/fast_loader.py:272-283 | Over the corrected load: succeeds iff the cache loads; on failure the registry and loader are untouched; on success the proxies are added and existing entries are kept |
| FastLoader.EnableFastLoadingAsWritten | core/meme_generator/fast_loader.py:272-283 | As written: succeeds iff the cache loads; on failure the registry is untouched and `loaded` is unchanged; on success the loader holds the files and the proxies are created |
| FastLoader.EnableFastLoadingAgreesUnlessReloadFails | core/meme_generator/fast_loader.py:272-283 | From a loader not yet loaded, or when the load succeeds, the written and corrected versions report the same, register the same entries and serve the same data |
| Startup.FastLoadingFlag | core/meme_generator/__init__.py:22 | An unset `MEME_FAST_LOADING` means fast loading is on |
| Startup.FlagIgnoresCase | core/meme_generator/__init__.py:22 | The switch is on iff its value spells `true`, `1` or `yes` in any mix of letter cases |
| Startup.BuiltinSteps | core/meme_generator/__init__.py:37-40 | A built-in template is loaded iff its entry is a directory whose name does not start with `_` |
| Startup.StandardPlan | core/meme_generator/__init__.py:35-43 | With `load_builtin_memes` and no built-in directory, `iterdir` raises; otherwise built-in templates are loaded only with `load_builtin_memes`, then every extra directory once, in configured order |
| Startup.BuiltinFlagOnlyPrepends | core/meme_generator/__init__.py:35-43 | Turning `load_builtin_memes` on only adds loads in front; the extra directories are loaded the same either way |
| Startup.InitPackage | core/meme_generator/__init__.py:20-43 | Fast loading takes over iff the switch is on, the loader imports and every artifact loads; otherwise the standard plan runs, the registry is untouched and the new loader stays unloaded and serves nothing |
| Startup.SwitchOffMeansStandardLoading | core/meme_generator/__init__.py:22-35 | A switch value that is not a spelling of true, 1 or yes always leads to the standard plan, with the cache unread |
| Startup.StaleCacheStillTakesOver | core/meme_generator/__init__.py:24-29 | A cache whose files parse but whose `state_hash` does not match the sources still takes over from standard loading |
| Pipeline.InfoRoundTrip | core/meme_generator/fast_loader.py:137-173 | A record written by the generator always builds a proxy carrying the template's own keywords, shortcuts, tags and bounds; only the argument type is dropped |
| Pipeline.GeneratedCacheLoads | core/static_generator.py:270-306 | After a run, the cache is available, valid and loadable, and the loader serves the generated key list |
| Pipeline.SearchAfterLoad | core/meme_generator/fast_loader.py:90-93 | Keyword search over a generated cache returns exactly the templates listing the keyword, in registry order |
| Pipeline.FastLoadingRegistersWrittenEntries | core/meme_generator/fast_loader.py:101-124 | Fast loading a generated cache into an empty registry registers a proxy for exactly the entries whose records were written |
| Pipeline.RenderedPreviewServedFromCache | core/meme_generator/fast_loader.py:217-230 | A preview rendered as jpg, png or gif during generation is served from the cache without materialising the proxy |

## Left out

- File I/O, JSON encoding and decoding, and logging are not modelled. A top-level JSON value of the wrong shape is modelled only for `cache_meta.json` (`MetaNonObject`). For the other three files such a value reads as `Unreadable`, so the model's load fails where `load_cache` would accept it (an object or a string in `meme_list.json` passes `len` and the key loop).
- Fingerprint.DirectoryHash: MD5 is a parameter, and `st_mtime` is the text Python prints for it. `TouchChangesState` and `TouchInvalidatesCache` assume a collision-free digest, which MD5 is not.
- Template loading (`load_meme_modules`, `importlib`, `pkgutil`) and the registry manager (`load_meme`, `load_memes`, `get_meme`, `add_meme`) are not part of this model. Their outcomes are the `Scan` and `Loading` parameters. Whether `get_meme` can return the proxy itself is therefore not modelled.
- Preview rendering, image bytes and `filetype` extension sniffing are left out. A render's result is given as the saved extension, or nothing when it raises.
- The thread pool is not modelled; only the completion order is. `PreviewsIgnoreCompletionOrder` shows the result does not depend on it.
- `datetime.now()`, the ISO date text and the date-parse fallback of `LazyMeme` are left out. `LazyMeme` carries no dates, and the generation timestamp is a parameter.
- StaticGenerator.GenerateStaticCache: write failures are not modelled. A failing `json.dump` of the first three artifacts raises. `save_cache_meta` only logs its failure, so a run can leave fresh artifacts next to an old meta file.
- The `--check-cache` branch of `main` and the progress output only print; they are not modelled.
- `get_fast_loader`'s probing of candidate cache directories is not modelled. The loader's directory is a parameter, and `is_fast_loading_available` is `IsCacheAvailable` on that same directory.
- Concurrency and locking are not modelled. The source has no lock around materialisation, so nothing here claims at-most-once loading under concurrent calls.
- Startup.Lower: lowercases ASCII letters only. This decides the same membership as Python's `str.lower()` here, because no other character lowercases to a string of letters and digits from `true`, `1` or `yes`.
- Startup.InitPackage: an `ImportError` is a boolean parameter. The standard plan is the list of loader calls, not their effect on the registry. The registry it states on success is the corrected `EnableFastLoading`'s; at import the loader is new, and `EnableFastLoadingAgreesUnlessReloadFails` shows the source's version gives the same.
- FastLoader.EnableFastLoading: built on the corrected all-or-nothing load. After an earlier successful load, the source's `enable_fast_loading` can fail and still change what the loader serves; `EnableFastLoadingAsWritten` models that, and the two agree from an unloaded loader.
- StaticGenerator.LoadStaticCache: uses the corrected validity check. With a `cache_meta.json` that is not an object, `load_static_cache` raises `AttributeError` (its `is_cache_valid` call is outside the `try`), where the model returns nothing (first finding).
- StaticGenerator.RunGenerator: uses the corrected validity check. Without `--force` and with a `cache_meta.json` that is not an object, `main` raises `AttributeError`, where the model regenerates (first finding).
- Startup.StandardPlan: a missing built-in directory is modelled as the raising outcome `BuiltinDirMissing`; the exception's effect on the importer is not.
- LazyMemes.CallLazy: a real template's render function is `Render`, which records the template's renderer and the request. What rendering computes is not modelled.
- LazyMemes.LazyAgreesWithReal: calling a real entry is modelled as its `function` attribute, the call the proxy forwards to; the template's own `__call__` (in `meme.py`) is not part of this model, so the lemma does not claim the proxy matches it.

## Findings

| source | as written | input that shows it | evidently intended | confidence | as-written member | corrected member |
|---|---|---|---|---|---|---|
| core/static_generator.py:100-103 | `load_cache_meta` returns whatever JSON value the meta file holds, and `is_cache_valid` calls `.get` on it | `cache_meta.json` containing `[]` or `"x"`: `is_cache_valid` raises `AttributeError`, and so do `main` and `load_static_cache` | A meta file that is not an object makes the cache invalid, like a missing or unreadable one | not executed | StaticGenerator.NonObjectMetaRaises | StaticGenerator.IsCacheValid |
| core/meme_generator/fast_loader.py:36-70 | `load_cache` stores each artifact as it reads it and never resets `loaded` | A successful load of keys `["a"]`, then a reload where `meme_list.json` holds `["b"]` and `meme_info.json` is unreadable: the reload returns false, yet the loader stays loaded, lists `b`, has no record for `b` and still serves `a`'s record | A load either takes effect completely or leaves the loader as it was | not executed | FastLoader.FailedReloadMixesGenerations | FastLoader.LoadCache |
