/** The PHP built-ins and value semantics that src/Mix.php relies on, reduced to what
    Mix observes of them. */
module Php {

  datatype Option<T> = None | Some(value: T)

  /** The PHP values that Mix stores in its cache and reads back: `null`, a string
      (a manifest entry) or a decoded manifest (an array of string keys to strings). */
  datatype Value = Null | Str(s: string) | Arr(entries: map<string, string>)

  /** PHP's boolean conversion of a string: only "" and "0" are false. */
  predicate TruthyString(s: string) {
    s != "" && s != "0"
  }

  /** PHP's boolean conversion of a value: null and the empty array are false. */
  predicate Truthy(v: Value) {
    match v
    case Null => false
    case Str(s) => TruthyString(s)
    case Arr(m) => |m| > 0
  }

  /** `$v[$k] ?? null`: the entry under `k` when `v` is an array that has one, else null. */
  function Index(v: Value, k: string): Value {
    if v.Arr? && k in v.entries then Str(v.entries[k]) else Null
  }

  /** `strpos($s, $prefix) === 0`. */
  predicate StartsWith(s: string, prefix: string) {
    |prefix| <= |s| && s[..|prefix|] == prefix
  }

  /** A null string used as a string (`null . "x"`) is "". */
  function OrEmpty(s: Option<string>): string {
    if s.Some? then s.value else ""
  }

  /** `parse_url` as Mix uses it on a manifest entry: the path before the first '?'
      and, when there is a '?', the query after it (possibly empty). */
  function SplitQuery(url: string): (parts: (string, Option<string>))
    ensures '?' !in parts.0
    ensures parts.1.None? <==> '?' !in url
    ensures parts.1.None? ==> parts.0 == url
    ensures parts.1.Some? ==> url == parts.0 + "?" + parts.1.value
  {
    if url == [] then ([], None)
    else if url[0] == '?' then ([], Some(url[1..]))
    else
      var (path, query) := SplitQuery(url[1..]);
      assert url == [url[0]] + url[1..];
      ([url[0]] + path, query)
  }

  /** The index of the last `c` in `s`, or -1 when `c` does not occur. */
  function LastIndexOf(s: string, c: char): (i: int)
    ensures -1 <= i < |s|
    ensures i >= 0 ==> s[i] == c
    ensures forall j :: i < j < |s| ==> s[j] != c
  {
    if s == [] then -1
    else if s[|s| - 1] == c then |s| - 1
    else LastIndexOf(s[..|s| - 1], c)
  }

  /** `s` without its trailing slashes, as `basename` strips them. */
  function TrimTrailingSlashes(s: string): (r: string)
    ensures |r| <= |s| && r == s[..|r|]
    ensures r == [] || r[|r| - 1] != '/'
    ensures forall i :: |r| <= i < |s| ==> s[i] == '/'
  {
    if s != [] && s[|s| - 1] == '/' then TrimTrailingSlashes(s[..|s| - 1]) else s
  }

  /** `basename($path)`: the last '/'-separated component once trailing slashes are gone. */
  function Basename(path: string): (base: string)
    ensures '/' !in base
  {
    var trimmed := TrimTrailingSlashes(path);
    trimmed[LastIndexOf(trimmed, '/') + 1..]
  }

  /** The basename is the end of the path once its trailing slashes are removed: all of
      it, or the part after a '/'. Kept apart from Basename so that what depends on the
      extension does not carry it. */
  lemma BasenameIsLastComponent(path: string)
    ensures var t := TrimTrailingSlashes(path);
            var base := Basename(path);
            |base| <= |t| && base == t[|t| - |base|..] &&
            (|base| == |t| || t[|t| - |base| - 1] == '/')
  {
    var t := TrimTrailingSlashes(path);
    var slash := LastIndexOf(t, '/');
    assert Basename(path) == t[slash + 1..];
    assert |t| - |Basename(path)| == slash + 1;
  }

  /** `pathinfo($path, PATHINFO_EXTENSION)`: the text after the last '.' of the basename,
      and "" when the basename has no '.'. */
  function Extension(path: string): (ext: string)
    ensures '.' !in ext && '/' !in ext
    ensures '.' !in Basename(path) ==> ext == ""
    ensures '.' in Basename(path) ==>
              var base := Basename(path);
              |ext| < |base| && base[|base| - |ext| - 1] == '.' && base[|base| - |ext|..] == ext
  {
    var base := Basename(path);
    var dot := LastIndexOf(base, '.');
    if dot < 0 then "" else base[dot + 1..]
  }

  /** `array_merge($a, $b)` on arrays with string keys: every key of either, and `b`'s
      value wherever `b` has the key. */
  function ArrayMerge<V>(a: map<string, V>, b: map<string, V>): (r: map<string, V>)
    ensures r.Keys == a.Keys + b.Keys
    ensures forall k :: k in b ==> r[k] == b[k]
    ensures forall k :: k in a && k !in b ==> r[k] == a[k]
  {
    a + b
  }

  /** The inverse of SplitQuery: a path without '?' joined to a query splits back into both. */
  lemma {:induction false} SplitQueryOfJoin(path: string, query: string)
    requires '?' !in path
    ensures SplitQuery(path + "?" + query) == (path, Some(query))
  {
    if path == [] {
      assert path + "?" + query == ['?'] + query;
    } else {
      var url := path + "?" + query;
      assert url[0] == path[0] && url[0] != '?';
      assert url[1..] == path[1..] + "?" + query;
      SplitQueryOfJoin(path[1..], query);
      assert [path[0]] + path[1..] == path;
    }
  }

  /** The basename of a directory joined to a '/'-free name, with or without trailing
      slashes, is that name. */
  lemma BasenameOfJoin(dir: string, name: string, slashes: nat)
    requires name != [] && '/' !in name
    ensures Basename(dir + "/" + name + seq(slashes, _ => '/')) == name
  {
    var p := dir + "/" + name + seq(slashes, _ => '/');
    var n := |dir| + 1 + |name|;
    assert p[n - 1] == name[|name| - 1];
    assert forall i :: n <= i < |p| ==> p[i] == '/';
    var t := TrimTrailingSlashes(p);
    assert |t| == n;
    assert t == dir + "/" + name;
    assert t[|dir|] == '/';
    assert forall j :: |dir| < j < |t| ==> t[j] == name[j - |dir| - 1];
    assert LastIndexOf(t, '/') == |dir|;
    assert t[|dir| + 1..] == name;
  }

  /** A path ending in `.ext`, where `ext` holds no '.' or '/', has extension `ext`. */
  lemma ExtensionOfName(stem: string, ext: string)
    requires '.' !in ext && '/' !in ext
    ensures Extension(stem + "." + ext) == ext
  {
    var name := stem + "." + ext;
    assert forall j :: |stem| < j < |name| ==> name[j] == ext[j - |stem| - 1];
    assert name[|name| - 1] != '/';
    assert TrimTrailingSlashes(name) == name;
    var slash := LastIndexOf(name, '/');
    assert name[|stem|] == '.';
    assert slash < |stem|;
    var base := Basename(name);
    assert base == name[slash + 1..];
    var dot := |stem| - slash - 1;
    assert base[dot] == '.';
    assert LastIndexOf(base, '.') == dot;
    assert base[dot + 1..] == ext;
  }
}
