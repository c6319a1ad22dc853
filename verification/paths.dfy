/** Lexical paths, in the sense of `java.io.File` without any filesystem access. */
module Paths {
  import opened Results

  /** An absolute path as its list of name segments; `[]` is the filesystem root "/". */
  type Path = seq<string>

  /** `File.getParentFile`: the path without its last segment, or `null` for the root. */
  function Parent(p: Path): (r: Option<Path>)
    ensures r.None? <==> p == []
    ensures r.Some? ==> |r.value| + 1 == |p| && r.value < p
  {
    if p == [] then None else Some(p[..|p| - 1])
  }

  /** `File.getName`: the last segment, or "" for the root. */
  function Name(p: Path): string
  {
    if p == [] then "" else p[|p| - 1]
  }

  /** `new File(dir, name)`: the entry `name` inside `dir`. */
  function Child(dir: Path, name: string): (r: Path)
    ensures Parent(r) == Some(dir)
    ensures Name(r) == name
    ensures dir < r
  {
    dir + [name]
  }
}
