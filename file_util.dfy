/** The pure string logic of `FileUtil`: the base name of a path and the
    lookup of the first file whose name contains a query. */
module FileUtil {
  import opened Wrappers
  import opened JavaLang
  import opened Images

  const BACKSLASH: char := '\\'

  /** `p` is where the base name of `path` starts: right after the last
      backslash; only when there is none, right after the last slash; and at
      0 when there is neither. */
  predicate IsNameStart(path: string, p: int) {
    if BACKSLASH in path then 0 < p <= |path| && path[p - 1] == BACKSLASH && BACKSLASH !in path[p..]
    else if '/' in path then 0 < p <= |path| && path[p - 1] == '/' && '/' !in path[p..]
    else p == 0
  }

  /** `e` is where the base name of `path` ends: at the last dot, or at the
      end of the string when there is no dot. */
  predicate IsNameEnd(path: string, e: int) {
    if '.' in path then 0 <= e < |path| && path[e] == '.' && '.' !in path[e + 1..]
    else e == |path|
  }

  /** `pos1` of `getFileNameWithoutEnding`. */
  function NameStart(path: string): (p: nat)
    ensures IsNameStart(path, p)
  {
    var pos1 := LastIndexOf(path, BACKSLASH) + 1;
    if pos1 == 0 then LastIndexOf(path, '/') + 1 else pos1
  }

  /** `pos2` of `getFileNameWithoutEnding`. */
  function NameEnd(path: string): (e: nat)
    ensures IsNameEnd(path, e)
  {
    var pos2 := LastIndexOf(path, '.');
    if pos2 == -1 then |path| else pos2
  }

  /** `substring(pos1, pos2)` throws unless the last dot does not come
      before the start of the base name. */
  predicate HasBaseName(path: string) {
    NameStart(path) <= NameEnd(path)
  }

  /** `FileUtil.getFileNameWithoutEnding`: the text between the start and
      the end of the base name. The result holds no backslash, holds no slash
      when the path holds no backslash, and the cut-off ending (when there is
      one) is a dot followed by dot-free text. */
  function FileNameWithoutEnding(path: string): (r: string)
    requires HasBaseName(path)
    ensures BACKSLASH !in r
    ensures BACKSLASH !in path ==> '/' !in r
    ensures path == path[..NameStart(path)] + r + path[NameEnd(path)..]
    ensures '.' in path ==> path[NameEnd(path)..][0] == '.' && '.' !in path[NameEnd(path)..][1..]
    ensures '.' !in path ==> path == path[..NameStart(path)] + r
  {
    var r := path[NameStart(path)..NameEnd(path)];
    assert r <= path[NameStart(path)..];
    assert '.' in path ==> path[NameEnd(path)..][1..] == path[NameEnd(path) + 1..];
    r
  }

  /** A string free of separators and dots is its own base name. */
  lemma PlainNameUnchanged(path: string)
    requires BACKSLASH !in path && '/' !in path && '.' !in path
    ensures HasBaseName(path) && FileNameWithoutEnding(path) == path
  {
  }

  /** For `"a.b/c"` the last dot comes before the start of the base name, so
      `getFileNameWithoutEnding` throws. */
  lemma DotBeforeSlashHasNoBaseName()
    ensures !HasBaseName("a.b/c")
  {
    assert IsNameStart("a.b/c", NameStart("a.b/c"));
    assert NameStart("a.b/c") == 4;
    assert "a.b/c"[1] == '.';
  }

  /** The index of the first file, in array order, whose name contains `name`. */
  function FirstMatch(name: string, files: seq<File>): (r: Option<nat>)
    ensures r.None? <==> forall k :: 0 <= k < |files| ==> !Contains(files[k].name, name)
    ensures r.Some? ==> r.value < |files| && Contains(files[r.value].name, name)
    ensures r.Some? ==> forall j :: 0 <= j < r.value ==> !Contains(files[j].name, name)
  {
    if |files| == 0 then None
    else if Contains(files[0].name, name) then Some(0)
    else match FirstMatch(name, files[1..])
      case None => None
      case Some(k) => Some(k + 1)
  }

  /** `FileUtil.findFile`: the first file, in array order, whose name
      contains `name`, and `null` when there is none. */
  method FindFile(name: string, files: seq<File>) returns (r: Option<File>)
    ensures r.None? <==> forall k :: 0 <= k < |files| ==> !Contains(files[k].name, name)
    ensures r.Some? ==> FirstMatch(name, files).Some? && r.value == files[FirstMatch(name, files).value]
  {
    for i := 0 to |files|
      invariant forall j :: 0 <= j < i ==> !Contains(files[j].name, name)
    {
      if Contains(files[i].name, name) {
        return Some(files[i]);
      }
    }
    return None;
  }
}
