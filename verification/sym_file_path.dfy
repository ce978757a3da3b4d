/** Recognising the paths of the temporary symbol files the reader writes for
    JIT-compiled code: such a path carries `_jit_app_cache:` (code JIT-compiled by
    an app process) or `_jit_zygote_cache:` (code JIT-compiled by the zygote). */
module SymFilePath {
  import opened Base

  const JITAppCacheFile: string := "jit_app_cache"
  const JITZygoteCacheFile: string := "jit_zygote_cache"

  /** The marker `_<name>:` that a symfile path carries for cache file `name`. */
  function Marker(name: string): (m: string)
    ensures |m| == |name| + 2 && m[0] == '_' && m[|m| - 1] == ':'
    ensures m[1..|m| - 1] == name
  {
    "_" + name + ":"
  }

  /** `pat` stands in `s` from position `i` on. */
  predicate OccursAt(s: string, pat: string, i: int) {
    0 <= i && i + |pat| <= |s| && s[i..i + |pat|] == pat
  }

  /** `pat` is a substring of `s`. */
  ghost predicate Contains(s: string, pat: string) {
    exists i :: OccursAt(s, pat, i)
  }

  /** `std::string::find(pat, from)`: the first position at or after `from` where
      `pat` occurs, or None for `npos`. */
  function Find(s: string, pat: string, from: nat := 0): (r: Option<nat>)
    ensures r.Some? ==> from <= r.value && OccursAt(s, pat, r.value)
    ensures r.Some? ==> forall j :: from <= j < r.value ==> !OccursAt(s, pat, j)
    ensures r.None? ==> forall j :: from <= j ==> !OccursAt(s, pat, j)
    decreases |s| - from
  {
    if from + |pat| > |s| then None
    else if s[from..from + |pat|] == pat then Some(from)
    else Find(s, pat, from + 1)
  }

  /** `JITDebugReader::IsPathInJITSymFile`. */
  function IsPathInJITSymFile(path: string): (r: bool)
    ensures r <==> Contains(path, Marker(JITAppCacheFile)) || Contains(path, Marker(JITZygoteCacheFile))
  {
    Find(path, Marker(JITAppCacheFile)) != None || Find(path, Marker(JITZygoteCacheFile)) != None
  }

  /** Any path built around one of the two markers is recognised, whatever
      surrounds the marker. */
  lemma MarkedPathIsSymFile(prefix: string, name: string, suffix: string)
    requires name == JITAppCacheFile || name == JITZygoteCacheFile
    ensures IsPathInJITSymFile(prefix + Marker(name) + suffix)
  {
    var m := Marker(name);
    var path := prefix + m + suffix;
    assert path[|prefix|..|prefix| + |m|] == m;
    assert OccursAt(path, m, |prefix|);
  }

  /** Both markers start with '_', so a path without '_' is never recognised. */
  lemma PathWithoutUnderscoreIsNotSymFile(path: string)
    requires '_' !in path
    ensures !IsPathInJITSymFile(path)
  {
  }
}
