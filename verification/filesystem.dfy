/** The filesystem as one immutable value: every existing path mapped to what is there. */
module FileSystem {
  import opened Results
  import opened Paths

  type byte = b: int | 0 <= b < 256

  datatype Node =
      /** A directory; `listing` is what `listFiles` reports, `None` when it returns `null`. */
    | Dir(listing: Option<seq<string>>)
      /** A regular file; `opens` is false when `new FileInputStream` throws, `readable` is false
          when a `read` on the opened stream throws, and `removable` is false when deleting it
          throws an `IOException`. */
    | File(content: seq<byte>, opens: bool, readable: bool, removable: bool)
      /** Anything that exists but is neither a directory nor a regular file. */
    | Special

  type FS = map<Path, Node>

  /** `File.exists` */
  predicate Exists(fs: FS, p: Path) {
    p in fs
  }

  /** `File.isDirectory` */
  predicate IsDir(fs: FS, p: Path) {
    p in fs && fs[p].Dir?
  }

  /** `File.isFile` */
  predicate IsFile(fs: FS, p: Path) {
    p in fs && fs[p].File?
  }

  /** `File.length`: the byte count of a regular file, 0 for anything else. */
  function Length(fs: FS, p: Path): nat {
    if IsFile(fs, p) then |fs[p].content| else 0
  }

  /** A file that a delete call would remove without an error. */
  predicate Removable(fs: FS, p: Path) {
    IsFile(fs, p) && fs[p].removable
  }
}
