/** Path rules shared by both versions of the Bower project: the folders that may
    not become the active directory, the short form of the active directory
    relative to the project root, and the path the project works in. */
module Paths {

  import opened Outcomes

  /** `sub` occurs in `s` starting at position `i`. */
  predicate OccursAt(s: string, sub: string, i: int)
  {
    0 <= i && i + |sub| <= |s| && s[i..i + |sub|] == sub
  }

  /** Substring search, the model of testing a path against a literal regular
      expression such as `/node_modules/`. */
  function Contains(s: string, sub: string): (r: bool)
    ensures r <==> exists i :: OccursAt(s, sub, i)
    decreases |s|
  {
    if |s| < |sub| then false
    else if s[..|sub|] == sub then
      assert OccursAt(s, sub, 0);
      true
    else
      var r := Contains(s[1..], sub);
      assert forall i :: OccursAt(s[1..], sub, i) ==> OccursAt(s, sub, i + 1);
      assert forall i :: OccursAt(s, sub, i) ==> i == 0 || OccursAt(s[1..], sub, i - 1);
      r
  }

  /** A path inside an installed-packages folder is never made the active directory. */
  predicate IsExcluded(path: string): (r: bool)
    ensures r <==> exists i :: OccursAt(path, "node_modules", i) || OccursAt(path, "bower_components", i)
  {
    Contains(path, "node_modules") || Contains(path, "bower_components")
  }

  /** JavaScript `s.slice(n)` for a non-negative `n`: the empty string once `n`
      reaches the end. */
  function Slice(s: string, n: nat): string
  {
    if n <= |s| then s[n..] else ""
  }

  /** The `shortActiveDir` computed by the `activeDir` setter. */
  function ShortPath(activeDir: string, rootPath: string): (r: string)
    ensures |r| <= |activeDir| && r == activeDir[|activeDir| - |r|..]
    ensures |r| == if activeDir == rootPath || |activeDir| < |rootPath| then 0 else |activeDir| - |rootPath|
  {
    if activeDir == rootPath then "" else Slice(activeDir, |rootPath|)
  }

  /** The short path is what follows the root: putting the root back in front
      gives the active directory again, whenever the directory lies under the root. */
  lemma ShortPathRoundTrip(activeDir: string, rootPath: string)
    requires |rootPath| <= |activeDir| && activeDir[..|rootPath|] == rootPath
    ensures rootPath + ShortPath(activeDir, rootPath) == activeDir
    ensures |ShortPath(activeDir, rootPath)| == |activeDir| - |rootPath|
  {
    if activeDir != rootPath {
      assert activeDir == activeDir[..|rootPath|] + activeDir[|rootPath|..];
    }
  }

  /** `getPath()`: `activeDir || rootPath`, where a missing (null) or empty
      active directory is falsy. */
  function EffectivePath(activeDir: Option<string>, rootPath: string): (r: string)
    ensures activeDir.Some? && activeDir.value != "" ==> r == activeDir.value
    ensures activeDir.None? || activeDir.value == "" ==> r == rootPath
  {
    match activeDir
    case Some(dir) => if dir != "" then dir else rootPath
    case None => rootPath
  }
}
