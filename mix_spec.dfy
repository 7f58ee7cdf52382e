/** The behaviour of SSMix\Mix (src/Mix.php) as functions of its state and of the
    framework collaborators it calls. The class SSMix.Mix is proved to follow these
    functions step by step; MixProperties states what they promise. */
module MixSpec {
  import opened Php

  /** What Mix reaches through the framework during one call. Each collaborator is opaque.
      - manifestFile: the decoded contents of the themed `dist/mix-manifest.json` when the
        theme lookup finds it and the file exists; None otherwise (`Null` stands for a
        file that does not decode).
      - hotFile: the trimmed contents of the themed `dist/hot` when it is found and exists.
      - themed: `ThemeResourceLoader::findThemedResource` with the current themes.
      - distPath: `Path::join('dist', p)`.
      - joinLinks: `Controller::join_links`.
      - keepsHref: the test `preg_match('{^(//)|(http[s]?:)}', p) && Director::is_root_relative_url(p)`.
      - urlForResource: `ResourceURLGenerator::urlForResource`. */
  datatype Env = Env(
    manifestFile: Option<Value>,
    hotFile: Option<string>,
    themed: string -> Option<string>,
    distPath: string -> string,
    joinLinks: (string, string) -> string,
    keepsHref: string -> bool,
    urlForResource: string -> string)

  /** The values callers put in the `$options` array. */
  datatype OptionValue = Flag(b: bool) | Text(t: string)

  type Options = map<string, OptionValue>

  /** A call Mix makes on `Requirements`: `css`, `javascript`, or `insertHeadTags` for the
      preload and noscript tags of one deferred stylesheet. */
  datatype Registration =
    | Css(href: string, options: Options)
    | Javascript(href: string, options: Options)
    | HeadTags(href: string, options: Options)

  /** The state Mix updates: the cache (key to stored value), the static memo
      `Mix::$hotPath`, and the list `$deferredCss`. */
  datatype MixState = MixState(cache: map<string, Value>, hotPath: Option<string>, deferredCss: seq<string>)

  /** The cache key of the whole manifest. */
  const ManifestKey: string := "mix-manifest"

  /** The characters that `str_replace` turns into '.' to form a cache key. */
  predicate IsKeySpecial(c: char) {
    c == '{' || c == '}' || c == '(' || c == ')' || c == '/' || c == '\\' || c == '@' || c == ':'
  }

  /** The cache key of a logical asset path: every special character becomes '.', and
      every other character stays where it was. */
  function CacheKey(path: string): (key: string)
    ensures |key| == |path|
    ensures forall i :: 0 <= i < |path| ==> key[i] == if IsKeySpecial(path[i]) then '.' else path[i]
  {
    if path == [] then []
    else [if IsKeySpecial(path[0]) then '.' else path[0]] + CacheKey(path[1..])
  }

  /** A PSR-16 `get` without default: null for a missing key. */
  function CacheGet(cache: map<string, Value>, key: string): Value {
    if key in cache then cache[key] else Null
  }

  /** An ordered list with no element twice, which `$deferredCss` is kept as. */
  ghost predicate NoDuplicates(s: seq<string>) {
    forall i, j :: 0 <= i < j < |s| ==> s[i] != s[j]
  }

  /** `getHotPath`: the memo once it is set; while it is null, the hot file decides. */
  function HotPathAfter(hotPath: Option<string>, env: Env): Option<string> {
    if hotPath.None? then env.hotFile else hotPath
  }

  /** `getManifest`: the manifest it returns, and the state it leaves. Outside hot mode a
      truthy cached manifest wins; otherwise the file is read when it exists, and stored
      back in the cache outside hot mode. In hot mode the cache is neither read nor written. */
  function ManifestStep(s: MixState, env: Env): (MixState, Value) {
    var hotPath := HotPathAfter(s.hotPath, env);
    var s1 := s.(hotPath := hotPath);
    var cached := if hotPath.None? then CacheGet(s.cache, ManifestKey) else Null;
    if Truthy(cached) || env.manifestFile.None? then (s1, cached)
    else
      var manifest := env.manifestFile.value;
      (if hotPath.None? then s1.(cache := s.cache[ManifestKey := manifest]) else s1, manifest)
  }

  /** `getPathFromManifest`: the manifest entry for `path` and the state it leaves. Outside
      hot mode a truthy value cached under the path's key wins; otherwise the entry is
      looked up in the manifest and, outside hot mode, cached under that key, null included. */
  function LookupStep(s: MixState, env: Env, path: string): (MixState, Value) {
    var hotPath := HotPathAfter(s.hotPath, env);
    var key := CacheKey(path);
    var cached := if hotPath.None? then CacheGet(s.cache, key) else Null;
    if Truthy(cached) then (s.(hotPath := hotPath), cached)
    else
      var (s1, manifest) := ManifestStep(s, env);
      var entry := Index(manifest, path);
      (if hotPath.None? then s1.(cache := s1.cache[key := entry]) else s1, entry)
  }

  /** The production URL of a manifest entry: the `dist/`-relative path found through the
      theme lookup, with the entry's query string, if any, appended. */
  function ColdUrl(env: Env, entry: string): Option<string> {
    var (path, query) := SplitQuery(entry);
    var themed := env.themed(env.distPath(path));
    if query.Some? then Some(OrEmpty(themed) + "?" + query.value) else themed
  }

  /** What `resolve` makes of the entry it found: the input path when the entry is falsy,
      the hot URL in hot mode, the production URL otherwise. A truthy array (possible only
      for the path whose cache key is ManifestKey) leaves the path unchanged. */
  function ResolveEntry(env: Env, hotPath: Option<string>, path: string, entry: Value): Option<string> {
    if !Truthy(entry) || !entry.Str? then Some(path)
    else if hotPath.Some? then Some(env.joinLinks(hotPath.value, entry.s))
    else ColdUrl(env, entry.s)
  }

  /** `resolve`: paths starting with "http" are returned at once; other paths go through
      the manifest. A result of None is the null that the theme lookup can produce. */
  function ResolveStep(s: MixState, env: Env, path: string): (MixState, Option<string>) {
    if StartsWith(path, "http") then (s, Some(path))
    else
      var (s1, entry) := LookupStep(s, env, path);
      (s1, ResolveEntry(env, s1.hotPath, path, entry))
  }

  /** A resolved path used as a PHP condition. */
  predicate TruthyPath(p: Option<string>) {
    p.Some? && TruthyString(p.value)
  }

  /** The href `addDeferredCss` records for a resolved path. */
  function DeferredHref(env: Env, resolved: string): string {
    if env.keepsHref(resolved) then resolved else env.urlForResource(resolved)
  }

  /** `addDeferredCss`: a truthy resolved href not yet in the list is appended, and its
      head tags are inserted; anything else leaves the list alone and inserts nothing. */
  function AddDeferredCssStep(s: MixState, env: Env, path: string, options: Options): (MixState, seq<Registration>) {
    var (s1, resolved) := ResolveStep(s, env, path);
    if !TruthyPath(resolved) then (s1, [])
    else
      var href := DeferredHref(env, resolved.value);
      if href in s1.deferredCss then (s1, [])
      else (s1.(deferredCss := s1.deferredCss + [href]), [HeadTags(href, options)])
  }

  /** `mix`: the path is resolved whatever its extension; a truthy result is registered
      as a stylesheet for "css", as a script for "js", and not at all otherwise. */
  function MixStep(s: MixState, env: Env, path: string, options: Options): (MixState, seq<Registration>) {
    var ext := Extension(path);
    var (s1, resolved) := ResolveStep(s, env, path);
    if !TruthyPath(resolved) then (s1, [])
    else if ext == "css" then (s1, [Css(resolved.value, options)])
    else if ext == "js" then (s1, [Javascript(resolved.value, options)])
    else (s1, [])
  }

  /** The options `Defer` passes to `mix` for a script: `array_merge(['defer' => true], $options)`. */
  function DeferOptions(options: Options): Options {
    ArrayMerge(map["defer" := Flag(true)], options)
  }

  /** `Defer`: stylesheets are deferred, scripts are mixed with the defer option, and any
      other extension does nothing at all (not even a resolution). */
  function DeferStep(s: MixState, env: Env, path: string, options: Options): (MixState, seq<Registration>) {
    var ext := Extension(path);
    if ext == "css" then AddDeferredCssStep(s, env, path, options)
    else if ext == "js" then MixStep(s, env, path, DeferOptions(options))
    else (s, [])
  }

  /** `flush`: the cache is cleared. The static hot-path memo is not. */
  function FlushStep(s: MixState): MixState {
    s.(cache := map[])
  }
}
