# silverstripe-mix: manifest resolution for Laravel Mix assets

This project models the class `SSMix\Mix` of silverstripe-mix in Dafny. The class turns
logical asset names ("app.js") into the hashed build paths listed in Laravel Mix's
`mix-manifest.json`. In hot-reload mode it points them at the dev server named in the
`hot` file instead. It then registers the results as stylesheets, scripts or deferred
stylesheets with SilverStripe's `Requirements`.

The model has four modules:

- `Php` (php.dfy): the PHP built-ins and value semantics that the class relies on.
  - Truthiness: `""`, `"0"`, `null` and the empty array are false.
  - `$a[$k] ?? null` and `strpos(...) === 0`.
  - `parse_url`, reduced to a split at the first `?`.
  - `pathinfo(..., PATHINFO_EXTENSION)`, built on `basename`.
  - `array_merge` on string keys.
- `MixSpec` (mix_spec.dfy): the state and operations as functions.
  - The state is the cache, the static hot-path memo and the deferred stylesheet list.
  - `Env` holds the collaborators the class calls, one field each: the theme lookup,
    `Path::join`, `Controller::join_links`, the URL generator, and the two files it reads.
  - The cache key function, and one step function per operation. Each step function
    returns the new state and the result.
- `SSMix` (mix.dfy): the class `Mix`.
  - Its fields are `cache`, `hotPath` and `deferredCss`, and its methods update them in
    place, as the source does.
  - Each method is proved to produce exactly the state and result of its step function.
  - Methods that register assets return the `Requirements` calls they make.
- `MixProperties` (mix_properties.dfy): lemmas about the step functions.
  - Cache-key facts.
  - Hot and cold resolution.
  - Cache-aside behaviour, including flush and repeated lookups.
  - The memo's life cycle, the duplicate-free deferred list, dispatch by extension.
  - Worked examples: one manifest resolved in cold and in hot mode, and a stylesheet
    without a manifest entry.

The characters the cache key replaces (`{}()/\@:`) are exactly the characters PSR-16
reserves in cache keys. Entries and the manifest share one key space. The lemma
`OnlyManifestPathHasManifestKey` shows that they collide for one logical path only,
"mix-manifest". `LookupIsStable` covers that path too. The collision has a consequence
(`ManifestKeyEntryHidesManifest`): outside hot mode, when the manifest has a truthy entry
for "mix-manifest", looking up that path replaces the cached manifest with the entry
string. Every later lookup of another path then finds null, and caches that null, until
the cache is flushed. The model keeps this behaviour as written.

Notes on the code's behaviour, which the model follows:

- With no manifest entry, `resolve` returns its input unchanged (src/Mix.php:120).
- So `mix("style.css")` with no manifest entry registers the stylesheet "style.css"
  (`StylesheetExample`).
- `flush` clears only the cache. The static `$hotPath` memo survives it, so flushing does
  not re-decide hot mode (`HotPathIsSticky`).
- Unsupported extensions produce no warning. `mix` resolves the path and registers
  nothing. `Defer` does not even resolve it (`DeferDispatch`).

## Model

| member | source | states |
|---|---|---|
| MixSpec.CacheKey | src/Mix.php:91 | The key has the path's length. Each of `{ } ( ) / \ @ :` becomes '.', and every other character stays as it was, in place. |
| MixSpec.CacheGet | src/Mix.php:92 | A PSR-16 `get` without a default: the stored value, or null for a key never set. |
| MixSpec.HotPathAfter | src/Mix.php:75-80 | `getHotPath`: once the memo is set it is kept; while it is null the hot file's trimmed contents, or null when there is none, become the memo. |
| MixSpec.ManifestStep | src/Mix.php:55-71 | `getManifest`: outside hot mode a truthy cached manifest is returned as is. Otherwise an existing manifest file is returned, and stored under "mix-manifest" outside hot mode. With no file, the falsy cached value is returned. The memo is brought up to date; the cache is neither read nor written in hot mode. |
| MixSpec.LookupStep | src/Mix.php:89-101 | `getPathFromManifest`: outside hot mode a truthy value under the path's key is the entry. Otherwise the entry is `manifest[path] ?? null` of the manifest step, and outside hot mode it is stored under the path's key, null included. |
| MixSpec.ColdUrl | src/Mix.php:111-115 | The production URL of an entry: the theme lookup of `dist/` joined to the part before '?', with '?' and the query appended when there is one (onto "" when the lookup gives null). |
| MixSpec.ResolveEntry | src/Mix.php:106-120 | A falsy entry leaves the path unchanged. A truthy entry is joined onto the hot path in hot mode, and becomes the production URL otherwise. |
| MixSpec.ResolveStep | src/Mix.php:103-121 | `resolve`: a path starting with "http" is returned with the state untouched. Any other path is looked up, and the entry resolved in the mode the memo then shows. |
| MixSpec.DeferredHref | src/Mix.php:128-130 | A resolved path the href test keeps is used as is. Any other goes through the URL generator. |
| MixSpec.AddDeferredCssStep | src/Mix.php:123-146 | `addDeferredCss`: the path is resolved. A truthy result gives an href; an href not yet in the list is appended and its head tags are inserted. Otherwise nothing is inserted and the list is kept. |
| MixSpec.MixStep | src/Mix.php:183-194 | `mix`: the extension of the unresolved path decides. The path is always resolved; a truthy result is registered as a stylesheet for "css" and a script for "js", and nothing is registered otherwise. |
| MixSpec.DeferOptions | src/Mix.php:202 | The script options of `Defer`: `array_merge(['defer' => true], $options)`. |
| MixSpec.DeferStep | src/Mix.php:196-204 | `Defer`: "css" paths go to `addDeferredCss`, "js" paths to `mix` with the defer options, and any other path changes nothing. |
| MixSpec.FlushStep | src/Mix.php:210-214 | `flush`: the cache is emptied. The memo and the list are kept. |
| Php.TruthyString | src/Mix.php:127 | A string is true in a PHP condition unless it is "" or "0". |
| Php.Truthy | src/Mix.php:107 | A value is true in a PHP condition when it is a true string or a non-empty array. Null is false. The same test is at lines 58, 93 and 187. |
| Php.Index | src/Mix.php:95 | `$manifest[$path] ?? null`: the entry when the manifest is an array holding the path, null otherwise. |
| Php.StartsWith | src/Mix.php:105 | `strpos($path, 'http') === 0`: the path begins with the prefix. |
| Php.OrEmpty | src/Mix.php:114 | Appending to a null path (`.=`) appends to "". |
| Php.LastIndexOf | src/Mix.php:185 | The index of the last occurrence of the character, or -1. The character is at that index and at no later one. |
| Php.TrimTrailingSlashes | src/Mix.php:185 | A prefix of the path with no trailing '/', all of whose removed characters are '/'. |
| Php.BasenameOfJoin | src/Mix.php:185 | A directory, '/', a non-empty '/'-free name and any number of trailing slashes has that name as its basename. |
| MixProperties.CacheKeyFixesPlainPaths | src/Mix.php:91 | A path is its own key exactly when it has none of the replaced characters. |
| MixProperties.CacheKeyIdempotent | src/Mix.php:91 | A key has no replaced character left, so sanitising it again changes nothing. |
| MixProperties.OnlyManifestPathHasManifestKey | src/Mix.php:57-97 | Entry keys and the manifest key "mix-manifest" share one cache. The only path whose key is the manifest's is "mix-manifest" itself. |
| SSMix.Mix.constructor | src/Mix.php:27-40 | A new instance starts with the given cache contents, a null hot-path memo and no deferred stylesheets. |
| SSMix.Mix.GetHotPath | src/Mix.php:73-81 | The memo is set from the hot file only while it is still null, and is returned. Cache and list are unchanged. |
| SSMix.Mix.GetIsHot | src/Mix.php:83-86 | Hot mode means the (possibly just computed) memo is not null. |
| SSMix.Mix.GetManifest | src/Mix.php:55-71 | The new state and the returned manifest are those of `ManifestStep`. |
| SSMix.Mix.GetPathFromManifest | src/Mix.php:89-101 | The new state and the returned entry are those of `LookupStep`. The deferred list is unchanged. |
| SSMix.Mix.Resolve | src/Mix.php:103-121 | The new state and the resolved path are those of `ResolveStep`. The deferred list is unchanged. |
| SSMix.Mix.AddDeferredCss | src/Mix.php:123-146 | The new state and the head-tag insertions are those of `AddDeferredCssStep`. The list stays free of duplicates. |
| SSMix.Mix.Mix | src/Mix.php:183-194 | The new state and the registrations are those of `MixStep`. The deferred list is unchanged. |
| SSMix.Mix.Defer | src/Mix.php:196-204 | The new state and the calls are those of `DeferStep`. The list stays free of duplicates. |
| SSMix.Mix.Flush | src/Mix.php:210-214 | The cache becomes empty. The memo and the list are unchanged. |
| MixProperties.HotPathIsSticky | src/Mix.php:73-81 | Once the memo holds a hot path, reading the manifest, looking up, resolving and flushing all keep it, whatever the hot file says now. |
| MixProperties.HotPathIsStickyForEmitters | src/Mix.php:183-204 | The same holds of `mix`, `addDeferredCss` and `Defer`. |
| MixProperties.HotPathRecomputedWhileNull | src/Mix.php:75-79 | While the memo is null, resolving a non-http path reads the hot file again and takes its value, null included. |
| MixProperties.HotModeBypassesCache | src/Mix.php:57-64 | In hot mode, reading the manifest, looking up and resolving leave the cache unchanged. Any other cache contents give the same results. |
| MixProperties.ColdCacheHit | src/Mix.php:92-93 | Outside hot mode, a truthy value under the path's key is the entry. The state is unchanged and the manifest is not consulted. |
| MixProperties.ColdCacheMiss | src/Mix.php:93-98 | Outside hot mode, on a falsy cached value, the entry is the manifest's (null if absent). It is stored under the path's key after the manifest read. |
| MixProperties.ManifestStoredOnlyWhenRead | src/Mix.php:57-66 | The cache changes only on a miss outside hot mode when the file exists. The manifest is then stored under "mix-manifest" as read, and returned. |
| MixProperties.ManifestStoredWhenRead | src/Mix.php:58-66 | Outside hot mode, on a miss, an existing manifest file is returned and stored under "mix-manifest". |
| MixProperties.LookupServedFromCacheNextTime | src/Mix.php:92-97 | Outside hot mode, a truthy entry once looked up is returned from the cache by the next lookup, even if the manifest file changed. |
| MixProperties.FlushPicksUpNewManifest | src/Mix.php:210-214 | After a flush, outside hot mode, the next lookup returns the entry of the manifest file as it is now. |
| MixProperties.ResolveHttpUntouched | src/Mix.php:105-120 | A path starting with "http" is returned unchanged. The state, including cache and memo, is untouched. |
| MixProperties.ResolveWithoutEntry | src/Mix.php:106-120 | A falsy entry (missing, null, "" or "0") leaves the path unchanged. |
| MixProperties.ResolveHot | src/Mix.php:105-109 | In hot mode, the entry comes from the manifest file. A truthy entry `m` gives `join_links(hotPath, m)`, anything else gives the path. Only the memo changes. |
| MixProperties.ResolveColdWithQuery | src/Mix.php:110-115 | Outside hot mode, an entry `p?q` gives the themed `dist/` path of `p` followed by `?q`. A null theme lookup contributes "". |
| MixProperties.ResolveColdWithoutQuery | src/Mix.php:110-113 | Outside hot mode, an entry without '?' gives the themed `dist/` path with nothing appended (null if the lookup finds nothing). |
| MixProperties.ResolveKeepsDeferredCss | src/Mix.php:103-121 | Resolving never changes the deferred list. |
| MixProperties.ResolveIsStable | src/Mix.php:89-121 | Resolving again with the same collaborators gives the same result and changes nothing more. |
| MixProperties.ManifestKeyEntryHidesManifest | src/Mix.php:89-101 | Outside hot mode, with a truthy manifest entry for "mix-manifest", looking up "mix-manifest" leaves that entry string in the manifest's cache slot. A later lookup of any other path not yet cached then gives null and caches null. |
| MixProperties.ManifestEntryOverwritesManifest | src/Mix.php:91-97 | A cold miss for a path whose key is the manifest's reads the manifest, then stores the path's entry over it under "mix-manifest". |
| MixProperties.OverwrittenManifestHidesEntries | src/Mix.php:55-101 | Outside hot mode, a truthy string under "mix-manifest" is returned as the manifest. A path not yet cached then finds null, and null is stored under its key. |
| MixProperties.LookupIsStable | src/Mix.php:89-101 | Looking up again with the same collaborators gives the same entry and state, also for the path "mix-manifest". |
| MixProperties.LookupAgainAtManifestKey | src/Mix.php:55-101 | For "mix-manifest" with a falsy entry, the repeat lookup re-reads the manifest and overwrites it with the same entry again. |
| MixProperties.LookupAgainElsewhere | src/Mix.php:89-101 | For any other key with a falsy entry, the repeat lookup finds the same manifest and stores the same entry again. |
| MixProperties.ManifestStepAgain | src/Mix.php:55-71 | Reading the manifest twice in a row gives the same manifest and state. |
| MixProperties.ManifestStepFrame | src/Mix.php:55-71 | Reading the manifest depends on no cache key but "mix-manifest", and writes no other. |
| MixProperties.AddDeferredCssKeepsNoDuplicates | src/Mix.php:131-144 | If the deferred list has no duplicates before, it has none after. |
| MixProperties.AddDeferredCssKnownHref | src/Mix.php:131 | An href already in the list inserts no head tags and leaves the list unchanged. |
| MixProperties.AddDeferredCssNewHref | src/Mix.php:131-144 | A new href inserts its head tags once and is appended to the list, exactly once. |
| MixProperties.AddDeferredCssResolvesOnce | src/Mix.php:123-146 | `addDeferredCss` changes the cache and the memo only as its one resolution of the path does. |
| MixProperties.AddDeferredCssNothingResolved | src/Mix.php:125-127 | A path that resolves to nothing truthy inserts nothing and leaves the list unchanged. |
| MixProperties.AddDeferredCssTwice | src/Mix.php:123-146 | Deferring the same stylesheet a second time inserts nothing and changes no state. |
| MixProperties.ResolveIgnoresDeferredCss | src/Mix.php:103-121 | Resolution does not depend on the deferred list. |
| MixProperties.MixRegistersByExtension | src/Mix.php:183-194 | `mix` makes at most one call: a stylesheet exactly for "css" and a script exactly for "js", each only on a truthy resolved path, with the resolved href and the given options. It never inserts head tags. Its state is that of the resolution. |
| MixProperties.MixWithoutEntryRegistersLogicalPath | src/Mix.php:186-191 | Without a manifest entry, a truthy non-http "css" or "js" path is registered under its own name. |
| MixProperties.DeferOptionsDefaultToTrue | src/Mix.php:202 | The options that `Defer` passes to `mix` for a script add "defer". A caller-supplied "defer" wins over `true`, and every other option is kept. |
| MixProperties.DeferDispatch | src/Mix.php:196-204 | "css" goes to `addDeferredCss` and "js" goes to `mix` with the defer options. Any other extension does nothing and leaves the whole state unchanged. |
| MixProperties.DeferKeepsNoDuplicates | src/Mix.php:196-204 | `Defer` keeps the deferred list free of duplicates. |
| MixProperties.StylesheetExample | src/Mix.php:183-191 | With no entry for "style.css", `mix` registers the stylesheet "style.css". |
| MixProperties.ColdExample | src/Mix.php:103-115 | With manifest {"app.js": "app.abc123.js"}, no hot file and an empty cache, "app.js" resolves to the themed `dist/` path of "app.abc123.js". |
| MixProperties.HotExample | src/Mix.php:103-109 | The same manifest with hot file "http://localhost:8080" resolves "app.js" to `join_links("http://localhost:8080", "app.abc123.js")`. The cache stays empty. |
| Php.SplitQuery | src/Mix.php:111-114 | The path part holds no '?'. There is a query exactly when the entry has a '?', and path, '?' and query joined give back the entry. |
| Php.SplitQueryOfJoin | src/Mix.php:111-114 | A '?'-free path joined to any query with '?' splits back into that path and that query. |
| Php.Basename | src/Mix.php:185 | The basename holds no '/'. |
| Php.BasenameIsLastComponent | src/Mix.php:185 | The basename is the end of the path with its trailing slashes removed: all of it, or the part after a '/'. |
| Php.Extension | src/Mix.php:185 | The extension holds no '.' and no '/'. It is "" when the basename has no '.'. Otherwise the basename ends with '.' followed by the extension. |
| Php.ExtensionOfName | src/Mix.php:185-191 | Any path ending in '.' plus a '.'- and '/'-free suffix has that suffix as its extension. |
| Php.ArrayMerge | src/Mix.php:202 | The merged array has the keys of both. The second array's value wins where both have a key. |

## Left out

- File access and JSON decoding (src/Mix.php:59-63, 76-78). The manifest is `Env.manifestFile`, an already decoded value, or None when the themed file is not found. The hot file is `Env.hotFile`, its already trimmed contents. The configured paths `dist/mix-manifest.json` and `dist/hot` are folded into these fields.
- Decoded manifests other than a string-to-string object or null (numbers, nested arrays) are not modelled.
- The framework collaborators are opaque functions of `Env`, fixed for one call: `ThemeResourceLoader`, `Path::join` (including its exception for `..`), `Controller::join_links`, `ResourceURLGenerator`, and the regex and root-relative test on a deferred href (src/Mix.php:128).
- `Requirements`: its calls are returned as `Registration` values, not performed. The HTML of the preload and noscript tags (src/Mix.php:132-141) is left out; a head-tag record carries the href and the options only.
- `inst()`, the singleton, `Injectable` and `Config` (src/Mix.php:50-53). A `Mix` object stands for the singleton. `deferCss` (src/Mix.php:148-152) only forwards to `addDeferredCss` on the singleton, so `Defer` calls `AddDeferredCss` directly.
- The static `$hotPath` is shared by all instances in PHP. The model keeps it in the one object.
- `DeferredCss` (src/Mix.php:154-181): template output that iterates the list as `$href => $options`. Each call appends the integer keys 0..n-1 of the list to `$deferredCss` (src/Mix.php:158-159), so after it the list holds entries that are not hrefs and, from a second call on, duplicates. `Valid()` (no duplicates) is an invariant of the modelled operations only.
- `get_template_global_variables` (src/Mix.php:219-226), and the unused `$manifest` and `$deferredJs` fields.
- In hot mode `getManifest` starts from `false`, not null (src/Mix.php:57). Both are falsy and both index to null, so the model uses `Null`.
- SSMix.Mix.Resolve: a truthy array as the entry leaves the path unchanged. In the source, `parse_url` would then fail on an array. This can happen only outside hot mode, for the path "mix-manifest", when the cached manifest sits under its key.
- Php.Index: a string in the manifest slot is treated as having no entries. PHP would index into the string for integer-like paths. This, too, happens only after the "mix-manifest" collision.
- Php.SplitQuery: models `parse_url` only as a split at the first '?'. Fragments (`#`), schemes and hosts in manifest entries are not separated out, and the `false` that `parse_url` returns for a malformed entry is not modelled.
- Php.Basename: its own contract says only that the result is '/'-free. That it is the last component after trailing slashes are removed is the lemma `BasenameIsLastComponent`, kept apart so that every use of the extension does not carry it. Windows backslash separators and locale effects of `basename` are not modelled.
- Php.ArrayMerge: covers string keys only. `array_merge` renumbers integer keys.
- The cache backend is a map with get (null when missing), set and clear. Expiry, PSR-16 exceptions and sharing between processes are left out.
