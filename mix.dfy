/** SSMix\Mix (src/Mix.php) as a class whose fields are the state the source updates in
    place: the injected cache, the static hot-path memo and the deferred stylesheet list.
    The object stands for the singleton that the static entry points (`mix`, `Defer`,
    `flush`) reach through `inst()`. Every method is proved to do what the matching
    function of MixSpec describes. */
module SSMix {
  import opened Php
  import opened MixSpec

  class Mix {
    /** The contents of the cache behind `$this->cache`. */
    var cache: map<string, Value>
    /** `Mix::$hotPath`: null until a hot file has been found. */
    var hotPath: Option<string>
    /** `$this->deferredCss`. */
    var deferredCss: seq<string>

    function State(): MixState
      reads this
    {
      MixState(cache, hotPath, deferredCss)
    }

    ghost predicate Valid()
      reads this
    {
      NoDuplicates(deferredCss)
    }

    /** A fresh instance over a cache that may already hold entries, at process start. */
    constructor (initialCache: map<string, Value>)
      ensures Valid()
      ensures State() == MixState(initialCache, None, [])
    {
      cache := initialCache;
      hotPath := None;
      deferredCss := [];
    }

    method GetHotPath(env: Env) returns (hot: Option<string>)
      modifies this
      ensures State() == old(State()).(hotPath := HotPathAfter(old(hotPath), env))
      ensures hot == hotPath
    {
      if hotPath.None? {
        hotPath := env.hotFile;
      }
      hot := hotPath;
    }

    method GetIsHot(env: Env) returns (isHot: bool)
      modifies this
      ensures State() == old(State()).(hotPath := HotPathAfter(old(hotPath), env))
      ensures isHot == hotPath.Some?
    {
      var hot := GetHotPath(env);
      isHot := hot.Some?;
    }

    method GetManifest(env: Env) returns (manifest: Value)
      modifies this
      ensures (State(), manifest) == ManifestStep(old(State()), env)
      ensures deferredCss == old(deferredCss)
    {
      var isHot := GetIsHot(env);
      manifest := if !isHot then CacheGet(cache, ManifestKey) else Null;
      if !Truthy(manifest) {
        if env.manifestFile.Some? {
          manifest := env.manifestFile.value;
          isHot := GetIsHot(env);
          if !isHot {
            cache := cache[ManifestKey := manifest];
          }
        }
      }
    }

    method GetPathFromManifest(env: Env, path: string) returns (result: Value)
      modifies this
      ensures (State(), result) == LookupStep(old(State()), env, path)
      ensures deferredCss == old(deferredCss)
    {
      var cacheKey := CacheKey(path);
      var isHot := GetIsHot(env);
      result := if !isHot then CacheGet(cache, cacheKey) else Null;
      if !Truthy(result) {
        var manifest := GetManifest(env);
        result := Index(manifest, path);
        isHot := GetIsHot(env);
        if !isHot {
          cache := cache[cacheKey := result];
        }
      }
    }

    method Resolve(env: Env, path: string) returns (resolved: Option<string>)
      modifies this
      ensures (State(), resolved) == ResolveStep(old(State()), env, path)
      ensures deferredCss == old(deferredCss)
    {
      resolved := Some(path);
      if !StartsWith(path, "http") {
        var manifestPath := GetPathFromManifest(env, path);
        if Truthy(manifestPath) && manifestPath.Str? {
          var isHot := GetIsHot(env);
          if isHot {
            var hot := GetHotPath(env);
            resolved := Some(env.joinLinks(hot.value, manifestPath.s));
          } else {
            var parts := SplitQuery(manifestPath.s);
            resolved := env.themed(env.distPath(parts.0));
            if parts.1.Some? {
              resolved := Some(OrEmpty(resolved) + "?" + parts.1.value);
            }
          }
        }
      }
    }

    method AddDeferredCss(env: Env, path: string, options: Options) returns (calls: seq<Registration>)
      requires Valid()
      modifies this
      ensures Valid()
      ensures (State(), calls) == AddDeferredCssStep(old(State()), env, path, options)
    {
      calls := [];
      var resolved := Resolve(env, path);
      if resolved.Some? && TruthyString(resolved.value) {
        var href := resolved.value;
        if !env.keepsHref(href) {
          href := env.urlForResource(href);
        }
        if href !in deferredCss {
          calls := [HeadTags(href, options)];
          deferredCss := deferredCss + [href];
        }
      }
    }

    method Mix(env: Env, path: string, options: Options) returns (calls: seq<Registration>)
      modifies this
      ensures (State(), calls) == MixStep(old(State()), env, path, options)
      ensures deferredCss == old(deferredCss)
    {
      calls := [];
      var ext := Extension(path);
      var resolved := Resolve(env, path);
      if resolved.Some? && TruthyString(resolved.value) {
        if ext == "css" {
          calls := [Css(resolved.value, options)];
        } else if ext == "js" {
          calls := [Javascript(resolved.value, options)];
        }
      }
    }

    method Defer(env: Env, path: string, options: Options) returns (calls: seq<Registration>)
      requires Valid()
      modifies this
      ensures Valid()
      ensures (State(), calls) == DeferStep(old(State()), env, path, options)
    {
      calls := [];
      var ext := Extension(path);
      if ext == "css" {
        calls := AddDeferredCss(env, path, options);
      } else if ext == "js" {
        calls := Mix(env, path, ArrayMerge(map["defer" := Flag(true)], options));
        assert DeferOptions(options) == ArrayMerge(map["defer" := Flag(true)], options);
      }
    }

    method Flush()
      modifies this
      ensures State() == FlushStep(old(State()))
    {
      cache := map[];
    }
  }
}
