/** What Mix promises, stated about the functions of MixSpec that its methods are proved
    to follow. */
module MixProperties {
  import opened Php
  import opened MixSpec

  /* ---------------- Cache keys ---------------- */

  /** A path is its own cache key exactly when it holds none of the special characters. */
  lemma CacheKeyFixesPlainPaths(path: string)
    ensures CacheKey(path) == path <==> forall i :: 0 <= i < |path| ==> !IsKeySpecial(path[i])
  {
    var key := CacheKey(path);
    if forall i :: 0 <= i < |path| ==> !IsKeySpecial(path[i]) {
      assert |key| == |path|;
      assert forall i :: 0 <= i < |path| ==> key[i] == path[i];
    } else {
      var i :| 0 <= i < |path| && IsKeySpecial(path[i]);
      assert key[i] == '.';
    }
  }

  /** Cache keys hold no special character, so sanitising a key again changes nothing. */
  lemma CacheKeyIdempotent(path: string)
    ensures forall i :: 0 <= i < |CacheKey(path)| ==> !IsKeySpecial(CacheKey(path)[i])
    ensures CacheKey(CacheKey(path)) == CacheKey(path)
  {
    var key := CacheKey(path);
    assert !IsKeySpecial('.');
    CacheKeyFixesPlainPaths(key);
  }

  /** Entries and the manifest share one key space; the only logical path whose key is
      the manifest's is "mix-manifest" itself. */
  lemma OnlyManifestPathHasManifestKey(path: string)
    ensures CacheKey(path) == ManifestKey <==> path == ManifestKey
  {
    assert forall c :: c in ManifestKey ==> !IsKeySpecial(c) && c != '.';
    assert forall i :: 0 <= i < |ManifestKey| ==> ManifestKey[i] in ManifestKey;
    CacheKeyFixesPlainPaths(ManifestKey);
    var key := CacheKey(path);
    if key == ManifestKey {
      forall i | 0 <= i < |path| ensures path[i] == key[i] {
        assert key[i] in ManifestKey;
      }
      assert path == key;
    }
  }

  /* ---------------- The hot-path memo ---------------- */

  /** Once a hot path is memoised, resolving keeps it, whatever the hot file now says,
      and flushing does not reset it either. */
  lemma HotPathIsSticky(s: MixState, env: Env, path: string, h: string)
    requires s.hotPath == Some(h)
    ensures ManifestStep(s, env).0.hotPath == Some(h)
    ensures LookupStep(s, env, path).0.hotPath == Some(h)
    ensures ResolveStep(s, env, path).0.hotPath == Some(h)
    ensures FlushStep(s).hotPath == Some(h)
  {
  }

  /** The same holds of every template entry point. */
  lemma HotPathIsStickyForEmitters(s: MixState, env: Env, path: string, options: Options, h: string)
    requires s.hotPath == Some(h)
    ensures MixStep(s, env, path, options).0.hotPath == Some(h)
    ensures AddDeferredCssStep(s, env, path, options).0.hotPath == Some(h)
    ensures DeferStep(s, env, path, options).0.hotPath == Some(h)
  {
    HotPathIsSticky(s, env, path, h);
    MixRegistersByExtension(s, env, path, options);
    MixRegistersByExtension(s, env, path, DeferOptions(options));
    AddDeferredCssResolvesOnce(s, env, path, options);
    DeferDispatch(s, env, path, options);
  }

  /** While no hot file has been found the memo stays null, so the next lookup reads the
      hot file again; a hot file that appears later switches to hot mode. */
  lemma HotPathRecomputedWhileNull(s: MixState, env: Env, path: string)
    requires s.hotPath.None?
    requires !StartsWith(path, "http")
    ensures ResolveStep(s, env, path).0.hotPath == env.hotFile
  {
  }

  /* ---------------- Manifest and entry caching ---------------- */

  /** In hot mode the cache is neither read nor written: the state's cache is unchanged,
      and any other cache contents would give the same manifest, entry and URL. */
  lemma HotModeBypassesCache(s: MixState, env: Env, path: string, other: map<string, Value>)
    requires HotPathAfter(s.hotPath, env).Some?
    ensures ManifestStep(s, env).0.cache == s.cache
    ensures ManifestStep(s.(cache := other), env).1 == ManifestStep(s, env).1
    ensures LookupStep(s, env, path).0.cache == s.cache
    ensures LookupStep(s.(cache := other), env, path).1 == LookupStep(s, env, path).1
    ensures ResolveStep(s, env, path).0.cache == s.cache
    ensures ResolveStep(s.(cache := other), env, path).1 == ResolveStep(s, env, path).1
  {
  }

  /** Outside hot mode a truthy value cached under the path's key is the entry, the state
      is left as it was, and the manifest (file or cached) is not consulted. */
  lemma ColdCacheHit(s: MixState, env: Env, path: string)
    requires HotPathAfter(s.hotPath, env).None?
    requires Truthy(CacheGet(s.cache, CacheKey(path)))
    ensures LookupStep(s, env, path) == (s, CacheGet(s.cache, CacheKey(path)))
  {
  }

  /** Outside hot mode, without a truthy cached value, the entry is the manifest's (null
      when it has none) and it is stored under the path's key. */
  lemma ColdCacheMiss(s: MixState, env: Env, path: string)
    requires HotPathAfter(s.hotPath, env).None?
    requires !Truthy(CacheGet(s.cache, CacheKey(path)))
    ensures var (s1, entry) := LookupStep(s, env, path);
            var (s0, manifest) := ManifestStep(s, env);
            entry == Index(manifest, path) &&
            s1 == s0.(cache := s0.cache[CacheKey(path) := entry])
  {
  }

  /** The manifest is written to the cache only when it was just read from an existing
      file, outside hot mode, on a miss; and then it is stored as read and returned. */
  lemma ManifestStoredOnlyWhenRead(s: MixState, env: Env)
    ensures ManifestStep(s, env).0.cache != s.cache ==>
              HotPathAfter(s.hotPath, env).None? && !Truthy(CacheGet(s.cache, ManifestKey)) &&
              env.manifestFile.Some? &&
              ManifestStep(s, env) == (s.(cache := s.cache[ManifestKey := env.manifestFile.value]), env.manifestFile.value)
  {
  }

  /** Outside hot mode, on a miss, an existing manifest file is read, returned and cached. */
  lemma ManifestStoredWhenRead(s: MixState, env: Env, m: Value)
    requires HotPathAfter(s.hotPath, env).None?
    requires !Truthy(CacheGet(s.cache, ManifestKey))
    requires env.manifestFile == Some(m)
    ensures ManifestStep(s, env).1 == m
    ensures ManifestStep(s, env).0.cache == s.cache[ManifestKey := m]
  {
  }

  /** Outside hot mode a truthy entry, once looked up, is served from the cache by the
      next lookup, even when the manifest file has changed in between. */
  lemma LookupServedFromCacheNextTime(s: MixState, env: Env, env': Env, path: string)
    requires s.hotPath.None? && env.hotFile.None? && env'.hotFile.None?
    requires Truthy(LookupStep(s, env, path).1)
    ensures var (s1, entry) := LookupStep(s, env, path);
            LookupStep(s1, env', path) == (s1, entry)
  {
    var (s1, entry) := LookupStep(s, env, path);
    var key := CacheKey(path);
    if Truthy(CacheGet(s.cache, key)) {
      ColdCacheHit(s, env, path);
    } else {
      ColdCacheMiss(s, env, path);
      assert CacheGet(s1.cache, key) == entry;
    }
    ColdCacheHit(s1, env', path);
  }

  /** After `flush`, outside hot mode, the next lookup sees the manifest file as it now is. */
  lemma FlushPicksUpNewManifest(s: MixState, env: Env, path: string, m: Value)
    requires HotPathAfter(s.hotPath, env).None?
    requires env.manifestFile == Some(m)
    ensures FlushStep(s).cache == map[] && FlushStep(s).hotPath == s.hotPath
    ensures LookupStep(FlushStep(s), env, path).1 == Index(m, path)
  {
    var t := FlushStep(s);
    assert CacheGet(t.cache, CacheKey(path)) == Null;
    assert CacheGet(t.cache, ManifestKey) == Null;
    ManifestStoredWhenRead(t, env, m);
  }

  /** The shared key space has a consequence. Outside hot mode, a manifest with a truthy
      entry for "mix-manifest" makes the lookup of that path overwrite the cached manifest
      with the entry string. From then on every other path not yet cached finds no entry
      (a string has none), and that null is cached too, until the cache is flushed. */
  lemma ManifestKeyEntryHidesManifest(s: MixState, env: Env, m: map<string, string>, path: string)
    requires s.hotPath.None? && env.hotFile.None? && env.manifestFile == Some(Arr(m))
    requires !Truthy(CacheGet(s.cache, ManifestKey))
    requires ManifestKey in m && TruthyString(m[ManifestKey])
    requires path != ManifestKey && CacheKey(path) !in s.cache
    ensures var s1 := LookupStep(s, env, ManifestKey).0;
            CacheGet(s1.cache, ManifestKey) == Str(m[ManifestKey]) &&
            LookupStep(s1, env, path) == (s1.(cache := s1.cache[CacheKey(path) := Null]), Null)
  {
    OnlyManifestPathHasManifestKey(ManifestKey);
    ManifestEntryOverwritesManifest(s, env, m, ManifestKey);
    var s1 := LookupStep(s, env, ManifestKey).0;
    OnlyManifestPathHasManifestKey(path);
    OverwrittenManifestHidesEntries(s1, env, path);
  }

  /** The first half: outside hot mode, on a miss, looking up a path whose key is the
      manifest's stores its entry where the manifest was. */
  lemma ManifestEntryOverwritesManifest(s: MixState, env: Env, m: map<string, string>, path: string)
    requires HotPathAfter(s.hotPath, env).None?
    requires CacheKey(path) == ManifestKey && !Truthy(CacheGet(s.cache, ManifestKey))
    requires env.manifestFile == Some(Arr(m)) && path in m
    ensures LookupStep(s, env, path).0 == s.(cache := s.cache[ManifestKey := Str(m[path])])
  {
    ColdCacheMiss(s, env, path);
    ManifestStoredWhenRead(s, env, Arr(m));
    assert s.cache[ManifestKey := Arr(m)][ManifestKey := Str(m[path])] == s.cache[ManifestKey := Str(m[path])];
  }

  /** The second half: with a truthy string under "mix-manifest", any other path finds
      null, and that null is cached. */
  lemma OverwrittenManifestHidesEntries(s1: MixState, env: Env, path: string)
    requires s1.hotPath.None? && env.hotFile.None?
    requires ManifestKey in s1.cache && s1.cache[ManifestKey].Str? && Truthy(s1.cache[ManifestKey])
    requires CacheKey(path) !in s1.cache
    ensures LookupStep(s1, env, path) == (s1.(cache := s1.cache[CacheKey(path) := Null]), Null)
  {
    assert CacheGet(s1.cache, CacheKey(path)) == Null;
    assert ManifestStep(s1, env) == (s1, s1.cache[ManifestKey]);
  }

  /* ---------------- Resolution ---------------- */

  /** A path starting with "http" is returned as it is, and nothing is read or written:
      not the cache, not the hot-path memo, not the manifest. */
  lemma ResolveHttpUntouched(s: MixState, env: Env, path: string)
    requires StartsWith(path, "http")
    ensures ResolveStep(s, env, path) == (s, Some(path))
  {
  }

  /** A falsy entry (none in the manifest, or null, "" or "0") leaves the path unchanged. */
  lemma ResolveWithoutEntry(s: MixState, env: Env, path: string)
    requires !StartsWith(path, "http")
    requires !Truthy(LookupStep(s, env, path).1)
    ensures ResolveStep(s, env, path).1 == Some(path)
  {
  }

  /** Hot mode in full: the entry comes straight from the manifest file, a truthy one is
      joined onto the hot base URL, a missing one leaves the path as it is, and only the
      memo changes. */
  lemma ResolveHot(s: MixState, env: Env, path: string, h: string)
    requires HotPathAfter(s.hotPath, env) == Some(h)
    requires !StartsWith(path, "http")
    ensures var entry := if env.manifestFile.Some? then Index(env.manifestFile.value, path) else Null;
            ResolveStep(s, env, path) ==
              (s.(hotPath := Some(h)),
               if entry.Str? && TruthyString(entry.s) then Some(env.joinLinks(h, entry.s)) else Some(path))
  {
  }

  /** Outside hot mode an entry `p?q` resolves to the themed `dist/` path of `p` with `?q`
      appended (a null theme lookup contributes ""). */
  lemma ResolveColdWithQuery(s: MixState, env: Env, path: string, p: string, q: string)
    requires HotPathAfter(s.hotPath, env).None?
    requires !StartsWith(path, "http")
    requires '?' !in p
    requires LookupStep(s, env, path).1 == Str(p + "?" + q)
    ensures ResolveStep(s, env, path).1 == Some(OrEmpty(env.themed(env.distPath(p))) + "?" + q)
  {
    var entry := p + "?" + q;
    assert entry[|p|] == '?';
    SplitQueryOfJoin(p, q);
  }

  /** Outside hot mode an entry without '?' resolves to its themed `dist/` path, with
      nothing appended. */
  lemma ResolveColdWithoutQuery(s: MixState, env: Env, path: string, m: string)
    requires HotPathAfter(s.hotPath, env).None?
    requires !StartsWith(path, "http")
    requires '?' !in m && TruthyString(m)
    requires LookupStep(s, env, path).1 == Str(m)
    ensures ResolveStep(s, env, path).1 == env.themed(env.distPath(m))
  {
  }

  /** Resolving never touches the deferred stylesheets. */
  lemma ResolveKeepsDeferredCss(s: MixState, env: Env, path: string)
    ensures ResolveStep(s, env, path).0.deferredCss == s.deferredCss
  {
  }

  /** Resolving again with the same collaborators gives the same path and leaves the
      state where the first resolution left it. */
  lemma ResolveIsStable(s: MixState, env: Env, path: string)
    ensures var (s1, resolved) := ResolveStep(s, env, path);
            ResolveStep(s1, env, path) == (s1, resolved)
  {
    if !StartsWith(path, "http") {
      LookupIsStable(s, env, path);
    }
  }

  /** Looking up an entry again with the same collaborators finds the same entry and
      changes nothing more, also for the path whose key is the manifest's. */
  lemma LookupIsStable(s: MixState, env: Env, path: string)
    ensures var (s1, entry) := LookupStep(s, env, path);
            LookupStep(s1, env, path) == (s1, entry)
  {
    var key := CacheKey(path);
    if HotPathAfter(s.hotPath, env).Some? {
    } else if Truthy(CacheGet(s.cache, key)) {
      ColdCacheHit(s, env, path);
    } else {
      ColdCacheMiss(s, env, path);
      var (s1, entry) := LookupStep(s, env, path);
      assert CacheGet(s1.cache, key) == entry;
      if Truthy(entry) {
        ColdCacheHit(s1, env, path);
      } else if key == ManifestKey {
        LookupAgainAtManifestKey(s, env, path);
      } else {
        LookupAgainElsewhere(s, env, path);
      }
    }
  }

  /** The second lookup of a falsy entry for the path "mix-manifest": the manifest is
      read again and overwritten again by the same entry. */
  lemma LookupAgainAtManifestKey(s: MixState, env: Env, path: string)
    requires HotPathAfter(s.hotPath, env).None?
    requires !Truthy(CacheGet(s.cache, CacheKey(path)))
    requires CacheKey(path) == ManifestKey
    requires !Truthy(LookupStep(s, env, path).1)
    ensures var (s1, entry) := LookupStep(s, env, path);
            LookupStep(s1, env, path) == (s1, entry)
  {
    var (s1, entry) := LookupStep(s, env, path);
    ColdCacheMiss(s, env, path);
    var (s0, manifest) := ManifestStep(s, env);
    assert s1.cache == s0.cache[ManifestKey := entry];
    assert CacheGet(s1.cache, ManifestKey) == entry;
    var (s2, manifest2) := ManifestStep(s1, env);
    if env.manifestFile.Some? {
      var m := env.manifestFile.value;
      assert manifest == m && manifest2 == m;
      assert s2.cache == s1.cache[ManifestKey := m];
      assert s2.cache[ManifestKey := entry] == s1.cache;
    } else {
      assert entry == Null;
      assert (s2, manifest2) == (s1, entry);
      assert s1.cache[ManifestKey := Null] == s1.cache;
    }
  }

  /** The second lookup of a falsy entry under any other key: the manifest gives the
      same entry, which is stored again where it already is. */
  lemma LookupAgainElsewhere(s: MixState, env: Env, path: string)
    requires HotPathAfter(s.hotPath, env).None?
    requires !Truthy(CacheGet(s.cache, CacheKey(path)))
    requires CacheKey(path) != ManifestKey
    requires !Truthy(LookupStep(s, env, path).1)
    ensures var (s1, entry) := LookupStep(s, env, path);
            LookupStep(s1, env, path) == (s1, entry)
  {
    var key := CacheKey(path);
    var (s1, entry) := LookupStep(s, env, path);
    var (s0, manifest) := ManifestStep(s, env);
    assert s1 == s0.(cache := s0.cache[key := entry]);
    ManifestStepAgain(s, env);
    ManifestStepFrame(s0, env, key, entry);
    assert ManifestStep(s1, env) == (s1, manifest);
    assert s1.cache[key := entry] == s1.cache;
  }

  /** Reading the manifest twice in a row gives the same manifest and state. */
  lemma ManifestStepAgain(s: MixState, env: Env)
    ensures var (s0, manifest) := ManifestStep(s, env);
            ManifestStep(s0, env) == (s0, manifest)
  {
    var (s0, manifest) := ManifestStep(s, env);
    if env.manifestFile.Some? {
      assert s0.cache[ManifestKey := env.manifestFile.value] == s0.cache || s0.cache == s.cache;
    }
  }

  /** Reading the manifest looks at no cache key but the manifest's own. */
  lemma ManifestStepFrame(s: MixState, env: Env, key: string, v: Value)
    requires key != ManifestKey
    ensures var (s0, manifest) := ManifestStep(s, env);
            ManifestStep(s.(cache := s.cache[key := v]), env) == (s0.(cache := s0.cache[key := v]), manifest)
  {
    if env.manifestFile.Some? {
      var m := env.manifestFile.value;
      assert s.cache[key := v][ManifestKey := m] == s.cache[ManifestKey := m][key := v];
    }
  }

  /* ---------------- Deferred stylesheets ---------------- */

  /** The deferred list never holds an href twice. */
  lemma AddDeferredCssKeepsNoDuplicates(s: MixState, env: Env, path: string, options: Options)
    requires NoDuplicates(s.deferredCss)
    ensures NoDuplicates(AddDeferredCssStep(s, env, path, options).0.deferredCss)
  {
    ResolveKeepsDeferredCss(s, env, path);
    var (s1, resolved) := ResolveStep(s, env, path);
    if TruthyPath(resolved) {
      var href := DeferredHref(env, resolved.value);
      if href !in s1.deferredCss {
        var list := s1.deferredCss + [href];
        forall i, j | 0 <= i < j < |list| ensures list[i] != list[j] {
          if j == |s1.deferredCss| {
            assert list[i] == s1.deferredCss[i];
          }
        }
      }
    }
  }

  /** An href already deferred inserts no head tags and leaves the list as it is. */
  lemma AddDeferredCssKnownHref(s: MixState, env: Env, path: string, options: Options)
    requires TruthyPath(ResolveStep(s, env, path).1)
    requires DeferredHref(env, ResolveStep(s, env, path).1.value) in s.deferredCss
    ensures AddDeferredCssStep(s, env, path, options).1 == []
    ensures AddDeferredCssStep(s, env, path, options).0 == ResolveStep(s, env, path).0
    ensures AddDeferredCssStep(s, env, path, options).0.deferredCss == s.deferredCss
  {
    ResolveKeepsDeferredCss(s, env, path);
  }

  /** A new href is appended once, and its head tags are inserted once. */
  lemma AddDeferredCssNewHref(s: MixState, env: Env, path: string, options: Options)
    requires TruthyPath(ResolveStep(s, env, path).1)
    requires DeferredHref(env, ResolveStep(s, env, path).1.value) !in s.deferredCss
    ensures var href := DeferredHref(env, ResolveStep(s, env, path).1.value);
            AddDeferredCssStep(s, env, path, options).1 == [HeadTags(href, options)] &&
            AddDeferredCssStep(s, env, path, options).0.deferredCss == s.deferredCss + [href]
  {
    ResolveKeepsDeferredCss(s, env, path);
  }

  /** `addDeferredCss` reaches the cache and the memo only through its one resolution. */
  lemma AddDeferredCssResolvesOnce(s: MixState, env: Env, path: string, options: Options)
    ensures AddDeferredCssStep(s, env, path, options).0.cache == ResolveStep(s, env, path).0.cache
    ensures AddDeferredCssStep(s, env, path, options).0.hotPath == ResolveStep(s, env, path).0.hotPath
  {
    var (s1, resolved) := ResolveStep(s, env, path);
    var (s2, calls) := AddDeferredCssStep(s, env, path, options);
    assert s2 == s1 || s2 == s1.(deferredCss := s2.deferredCss);
  }

  /** A path that resolves to nothing truthy defers nothing. */
  lemma AddDeferredCssNothingResolved(s: MixState, env: Env, path: string, options: Options)
    requires !TruthyPath(ResolveStep(s, env, path).1)
    ensures AddDeferredCssStep(s, env, path, options) == (ResolveStep(s, env, path).0, [])
  {
  }

  /** Deferring the same stylesheet twice inserts its head tags at most once. */
  lemma AddDeferredCssTwice(s: MixState, env: Env, path: string, options: Options, options': Options)
    ensures var (s1, calls) := AddDeferredCssStep(s, env, path, options);
            AddDeferredCssStep(s1, env, path, options') == (s1, [])
  {
    ResolveIsStable(s, env, path);
    ResolveKeepsDeferredCss(s, env, path);
    var (s0, resolved) := ResolveStep(s, env, path);
    var (s1, calls) := AddDeferredCssStep(s, env, path, options);
    if TruthyPath(resolved) {
      var href := DeferredHref(env, resolved.value);
      assert href in s1.deferredCss;
      assert ResolveStep(s1, env, path) == (s1, resolved) by {
        ResolveIgnoresDeferredCss(s0, env, path, s1.deferredCss);
      }
    }
  }

  /** Resolution does not depend on the deferred list. */
  lemma ResolveIgnoresDeferredCss(s: MixState, env: Env, path: string, list: seq<string>)
    ensures ResolveStep(s.(deferredCss := list), env, path) ==
            (ResolveStep(s, env, path).0.(deferredCss := list), ResolveStep(s, env, path).1)
  {
  }

  /* ---------------- Registration ---------------- */

  /** `mix` registers at most one asset: a stylesheet for "css", a script for "js", each
      only when the resolved path is truthy, with the caller's options; it never defers. */
  lemma MixRegistersByExtension(s: MixState, env: Env, path: string, options: Options)
    ensures var (s1, calls) := MixStep(s, env, path, options);
            var resolved := ResolveStep(s, env, path).1;
            var ext := Extension(path);
            s1 == ResolveStep(s, env, path).0 &&
            |calls| <= 1 &&
            (calls != [] <==> TruthyPath(resolved) && (ext == "css" || ext == "js")) &&
            (forall c :: c in calls ==>
               c.href == resolved.value && c.options == options &&
               (c.Css? <==> ext == "css") && (c.Javascript? <==> ext == "js") && !c.HeadTags?)
  {
    var ext := Extension(path);
    var (s1, resolved) := ResolveStep(s, env, path);
    var (s2, calls) := MixStep(s, env, path, options);
    assert s2 == s1;
    if !TruthyPath(resolved) || (ext != "css" && ext != "js") {
      assert calls == [];
    } else if ext == "css" {
      assert calls == [Css(resolved.value, options)];
    } else {
      assert calls == [Javascript(resolved.value, options)];
    }
  }

  /** Without a manifest entry an asset is still registered, under its logical path. */
  lemma MixWithoutEntryRegistersLogicalPath(s: MixState, env: Env, path: string, options: Options)
    requires !StartsWith(path, "http") && TruthyString(path)
    requires !Truthy(LookupStep(s, env, path).1)
    ensures Extension(path) == "css" ==> MixStep(s, env, path, options).1 == [Css(path, options)]
    ensures Extension(path) == "js" ==> MixStep(s, env, path, options).1 == [Javascript(path, options)]
  {
    ResolveWithoutEntry(s, env, path);
  }

  /** `array_merge(['defer' => true], $options)`: the caller's `defer` wins over `true`,
      and every other option is passed on as given. */
  lemma DeferOptionsDefaultToTrue(options: Options)
    ensures DeferOptions(options).Keys == options.Keys + {"defer"}
    ensures DeferOptions(options)["defer"] == if "defer" in options then options["defer"] else Flag(true)
    ensures forall k :: k in options ==> DeferOptions(options)[k] == options[k]
  {
  }

  /** `Defer` dispatches by extension: stylesheets are deferred, scripts are mixed with the
      defer option, and any other path is not even resolved. */
  lemma DeferDispatch(s: MixState, env: Env, path: string, options: Options)
    ensures Extension(path) == "css" ==> DeferStep(s, env, path, options) == AddDeferredCssStep(s, env, path, options)
    ensures Extension(path) == "js" ==> DeferStep(s, env, path, options) == MixStep(s, env, path, DeferOptions(options))
    ensures Extension(path) != "css" && Extension(path) != "js" ==> DeferStep(s, env, path, options) == (s, [])
  {
  }

  /** `Defer` keeps the deferred list free of duplicates. */
  lemma DeferKeepsNoDuplicates(s: MixState, env: Env, path: string, options: Options)
    requires NoDuplicates(s.deferredCss)
    ensures NoDuplicates(DeferStep(s, env, path, options).0.deferredCss)
  {
    if Extension(path) == "css" {
      AddDeferredCssKeepsNoDuplicates(s, env, path, options);
    } else if Extension(path) == "js" {
      ResolveKeepsDeferredCss(s, env, path);
    }
  }

  /* ---------------- Worked examples ---------------- */

  /** Without a manifest entry "style.css" is registered as a stylesheet under that name. */
  lemma StylesheetExample(s: MixState, env: Env, options: Options)
    requires !Truthy(LookupStep(s, env, "style.css").1)
    ensures MixStep(s, env, "style.css", options).1 == [Css("style.css", options)]
  {
    StylesheetName();
    MixWithoutEntryRegistersLogicalPath(s, env, "style.css", options);
  }

  /** "style.css" is a truthy local path with extension "css". */
  lemma StylesheetName()
    ensures Extension("style.css") == "css"
    ensures !StartsWith("style.css", "http") && TruthyString("style.css")
  {
    ExtensionOfName("style", "css");
    assert "style" + "." + "css" == "style.css";
    assert "style.css"[..4][0] == 's';
  }

  /** A manifest {"app.js": "app.abc123.js"}, no hot file and an empty cache: "app.js"
      resolves to the themed `dist/` path of "app.abc123.js". */
  lemma ColdExample(env: Env)
    requires env.hotFile.None?
    requires env.manifestFile == Some(Arr(map["app.js" := "app.abc123.js"]))
    ensures ResolveStep(MixState(map[], None, []), env, "app.js").1 == env.themed(env.distPath("app.abc123.js"))
  {
    var s := MixState(map[], None, []);
    assert "app.js"[..4][0] == 'a';
    ColdCacheMiss(s, env, "app.js");
    ManifestStoredWhenRead(s, env, env.manifestFile.value);
    assert '?' !in "app.abc123.js";
  }

  /** The same manifest with a hot file holding "http://localhost:8080": "app.js" is
      joined onto that base; the cache stays empty. */
  lemma HotExample(env: Env)
    requires env.hotFile == Some("http://localhost:8080")
    requires env.manifestFile == Some(Arr(map["app.js" := "app.abc123.js"]))
    ensures ResolveStep(MixState(map[], None, []), env, "app.js") ==
            (MixState(map[], Some("http://localhost:8080"), []), Some(env.joinLinks("http://localhost:8080", "app.abc123.js")))
  {
    assert "app.js"[..4][0] == 'a';
    ResolveHot(MixState(map[], None, []), env, "app.js", "http://localhost:8080");
  }
}
