/**
 * The catalog's entities: a meme template with its public attributes, the
 * registry that holds entries by key, and the JSON documents the cache stores.
 */
module Memes {
  import opened Wrappers

  /** A command shortcut: its trigger key, an optional human-readable label and its arguments. */
  datatype Shortcut = Shortcut(key: string, humanized: Option<string>, args: seq<string>)

  /** A parser option's `action` object: its `str()` text and its Python truthiness. */
  datatype Action = Action(text: string, truthy: bool)

  /** One option of a meme's argument parser; `default` is the JSON text of its default value. */
  datatype ParserOption = ParserOption(names: seq<string>, helpText: string, default: string, action: Option<Action>)

  datatype ArgsType = ArgsType(parserOptions: seq<ParserOption>)

  /** `MemeParamsType`: image and text bounds, default texts, and the optional argument type. */
  datatype Params = Params(
    minImages: int, maxImages: int, minTexts: int, maxTexts: int,
    defaultTexts: seq<string>, argsType: Option<ArgsType>)

  /**
   * A fully loaded meme. `tags` is the tag set in its iteration order (the
   * order `list(meme.tags)` observes); `renderer` identifies the meme's render
   * function, whose behaviour is not part of this model.
   */
  datatype Meme = Meme(
    keywords: seq<string>, shortcuts: seq<Shortcut>, tags: seq<string>,
    dateCreated: string, dateModified: string, params: Params, renderer: nat)

  /**
   * The global `_memes` dictionary: keys in insertion (iteration) order and the
   * entry stored under each key.
   */
  datatype Registry<E> = Registry(order: seq<string>, items: map<string, E>) {

    /** A dictionary lists each of its keys exactly once. */
    predicate Valid() {
      && (forall i, j :: 0 <= i < j < |order| ==> order[i] != order[j])
      && (forall k :: k in items ==> k in order)
      && (forall k :: k in order ==> k in items)
    }

    /** `_memes[k] = e` for a key not yet present: appended at the end of the iteration order. */
    function Add(k: string, e: E): (r: Registry<E>)
      requires Valid() && k !in items
      ensures r.Valid()
      ensures r.order == order + [k]
      ensures r.items.Keys == items.Keys + {k} && r.items[k] == e
      ensures forall k' :: k' in items ==> r.items[k'] == items[k']
    {
      Registry(order + [k], items[k := e])
    }
  }

  function EmptyRegistry<E>(): (r: Registry<E>)
    ensures r.Valid() && r.items == map[]
  {
    Registry([], map[])
  }

  // ---- JSON documents of the cache, as parsed back; `None` is an absent key ----

  datatype ShortcutDoc = ShortcutDoc(key: Option<string>, humanized: Option<string>, args: Option<seq<string>>)

  /** One entry of `parser_options`; `action` is `null` when the option's action is falsy. */
  datatype OptionDoc = OptionDoc(names: seq<string>, helpText: string, default: string, action: Option<string>)

  datatype ParamsDoc = ParamsDoc(
    minImages: Option<int>, maxImages: Option<int>, minTexts: Option<int>, maxTexts: Option<int>,
    defaultTexts: Option<seq<string>>)

  /**
   * One record of `meme_info.json`. `argsType` holds the `parser_options` list
   * when an `args_type` object is present; `otherFields` records whether the
   * object has keys the writer never emits.
   */
  datatype InfoDoc = InfoDoc(
    key: Option<string>, keywords: Option<seq<string>>, shortcuts: Option<seq<ShortcutDoc>>,
    tags: Option<seq<string>>, dateCreated: Option<string>, dateModified: Option<string>,
    params: Option<ParamsDoc>, argsType: Option<seq<OptionDoc>>, otherFields: bool)
  {
    /** Python truthiness of the dictionary: it has at least one key. */
    predicate Truthy() {
      || key.Some? || keywords.Some? || shortcuts.Some? || tags.Some?
      || dateCreated.Some? || dateModified.Some? || params.Some? || argsType.Some? || otherFields
    }
  }

  /**
   * `cache_meta.json` as parsed: an object whose known keys may be absent, or
   * some other JSON value at the top level. `stateHash` is `None` when the key is
   * absent or its value is not an object of strings.
   */
  datatype MetaDoc =
    | MetaObject(
        generatedAt: Option<string>, stateHash: Option<map<string, string>>,
        memeCount: Option<int>, previewCount: Option<int>, includePreviews: Option<bool>)
    | MetaNonObject

  /** The empty object `{}`. */
  function EmptyMeta(): MetaDoc {
    MetaObject(None, None, None, None, None)
  }

  /** A cache artifact on disk: absent, present but unreadable or unparsable, or parsed. */
  datatype Artifact<T> = Absent | Unreadable | Stored(value: T) {
    predicate Exists() {
      !Absent?
    }
  }

  /** The name `<key>.<ext>` of a preview file inside `previews/`. */
  function PreviewFile(key: string, ext: string): string {
    key + "." + ext
  }

  /** The path `previews/<key>.<ext>` relative to the cache directory. */
  function PreviewPath(key: string, ext: string): string {
    "previews/" + PreviewFile(key, ext)
  }

  /** The cache directory: the four JSON artifacts and the file names under `previews/`. */
  datatype CacheFiles = CacheFiles(
    memeList: Artifact<seq<string>>,
    memeInfo: Artifact<map<string, InfoDoc>>,
    memeKeywords: Artifact<map<string, seq<string>>>,
    cacheMeta: Artifact<MetaDoc>,
    previews: set<string>)
  {
    /** All four artifacts exist (`is_cache_available`, and the first test of `is_cache_valid`). */
    predicate AllArtifactsExist() {
      memeList.Exists() && memeInfo.Exists() && memeKeywords.Exists() && cacheMeta.Exists()
    }
  }
}
