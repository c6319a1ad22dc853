/** `getFiles` (Java) and `walkTopDown` (Kotlin) over the filesystem value. */
module Walker {
  import opened Paths
  import opened FileSystem
  import opened Filters

  /** The name test applied to listed entries: Java's suffix filter, or none at all. */
  datatype NameFilter = Suffixes(types: set<string>) | AnyName

  predicate NameAccepted(f: NameFilter, name: string) {
    match f
    case Suffixes(types) => SuffixMatch(types, name)
    case AnyName => true
  }

  /** The `FileFilter` handed to `listFiles`: directories always pass, other entries by name. */
  predicate Accepts(fs: FS, f: NameFilter, p: Path) {
    IsDir(fs, p) || NameAccepted(f, Name(p))
  }

  /** Existing paths at depth `n` or more; shrinks strictly on every step into a directory. */
  function Below(fs: FS, n: nat): set<Path> {
    set q | q in fs && |q| >= n
  }

  /** `getFiles(start, filter, results)`: the non-directories reached from `start`, in listing order. */
  function Walk(fs: FS, f: NameFilter, p: Path): (r: seq<Path>)
    ensures forall q :: q in r ==> !IsDir(fs, q) && p <= q
    ensures forall q :: q in r && q != p ==> NameAccepted(f, Name(q))
    ensures !IsDir(fs, p) ==> r == [p]
    ensures IsDir(fs, p) && fs[p].listing.None? ==> r == []
    decreases Below(fs, |p|), 0, 0
  {
    if !IsDir(fs, p) then [p]
    else match fs[p].listing
      case None => []
      case Some(names) =>
        assert p in Below(fs, |p|) && p !in Below(fs, |p| + 1);
        Entries(fs, f, p, names)
  }

  /** The loop over the entries `listFiles` returned for the directory `dir`. */
  function Entries(fs: FS, f: NameFilter, dir: Path, names: seq<string>): (r: seq<Path>)
    ensures forall q :: q in r ==> !IsDir(fs, q) && dir < q && NameAccepted(f, Name(q))
    ensures forall i :: 0 <= i < |names| && !IsDir(fs, Child(dir, names[i])) && NameAccepted(f, names[i])
              ==> Child(dir, names[i]) in r
    decreases Below(fs, |dir| + 1), 1, |names|
  {
    if names == [] then []
    else
      var child := Child(dir, names[0]);
      var here := if Accepts(fs, f, child) then Walk(fs, f, child) else [];
      var rest := Entries(fs, f, dir, names[1..]);
      assert forall i :: 1 <= i < |names| ==> names[i] == names[1..][i - 1];
      here + rest
  }

  /** The directory `dir` has a listing, and it names `n`. */
  predicate ListsEntry(fs: FS, dir: Path, n: string) {
    IsDir(fs, dir) && fs[dir].listing.Some? && n in fs[dir].listing.value
  }

  /** Reference definition of what the walk from `p` finds: `q` is reached by going down listed
      entries from `p`. It is not a directory, and unless it is `p` itself its name passes the
      filter. Directories on the way always pass the `FileFilter`. */
  ghost predicate Reached(fs: FS, f: NameFilter, p: Path, q: Path) {
    && p <= q
    && (forall k :: |p| <= k < |q| ==> ListsEntry(fs, q[..k], q[k]))
    && !IsDir(fs, q)
    && (q == p || NameAccepted(f, Name(q)))
  }

  /** The walk emits exactly the reached paths. */
  lemma WalkReaches(fs: FS, f: NameFilter, p: Path, q: Path)
    ensures q in Walk(fs, f, p) <==> Reached(fs, f, p, q)
  {
    if q in Walk(fs, f, p) {
      WalkSound(fs, f, p, q);
    }
    if Reached(fs, f, p, q) {
      WalkComplete(fs, f, p, q);
    }
  }

  lemma WalkSound(fs: FS, f: NameFilter, p: Path, q: Path)
    requires q in Walk(fs, f, p)
    ensures Reached(fs, f, p, q)
    decreases Below(fs, |p|), 0, 0
  {
    if IsDir(fs, p) {
      var names := fs[p].listing.value;
      assert p in Below(fs, |p|) && p !in Below(fs, |p| + 1);
      EntriesSound(fs, f, p, names, q);
    }
  }

  lemma EntriesSound(fs: FS, f: NameFilter, dir: Path, names: seq<string>, q: Path)
    requires forall i :: 0 <= i < |names| ==> ListsEntry(fs, dir, names[i])
    requires q in Entries(fs, f, dir, names)
    ensures Reached(fs, f, dir, q)
    decreases Below(fs, |dir| + 1), 1, |names|
  {
    var c := Child(dir, names[0]);
    if Accepts(fs, f, c) && q in Walk(fs, f, c) {
      WalkSound(fs, f, c, q);
      assert ListsEntry(fs, dir, names[0]);
      forall k | |dir| <= k < |q| ensures ListsEntry(fs, q[..k], q[k]) {
        if k == |dir| {
          assert q[..k] == dir && q[k] == c[k];
        }
      }
    } else {
      assert forall i :: 1 <= i < |names| ==> names[1..][i - 1] == names[i];
      EntriesSound(fs, f, dir, names[1..], q);
    }
  }

  lemma WalkComplete(fs: FS, f: NameFilter, p: Path, q: Path)
    requires Reached(fs, f, p, q)
    ensures q in Walk(fs, f, p)
    decreases |q| - |p|
  {
    if q != p {
      var n := q[|p|];
      var c := q[..|p| + 1];
      assert ListsEntry(fs, q[..|p|], n);
      assert q[..|p|] == p && c == Child(p, n);
      assert Reached(fs, f, c, q) by {
        forall k | |c| <= k < |q| ensures ListsEntry(fs, q[..k], q[k]) {
          assert |p| <= k;
        }
      }
      WalkComplete(fs, f, c, q);
      assert Accepts(fs, f, c) by {
        if c != q {
          assert ListsEntry(fs, q[..|p| + 1], q[|p| + 1]);
        }
      }
      var names := fs[p].listing.value;
      var i :| 0 <= i < |names| && names[i] == n;
      EntriesInclude(fs, f, p, names, i, q);
    }
  }

  /** Whatever the walk of an accepted entry finds is part of the loop over the listing. */
  lemma {:induction false} EntriesInclude(fs: FS, f: NameFilter, dir: Path, names: seq<string>, i: nat, q: Path)
    requires i < |names| && Accepts(fs, f, Child(dir, names[i]))
    requires q in Walk(fs, f, Child(dir, names[i]))
    ensures q in Entries(fs, f, dir, names)
    decreases i
  {
    if i > 0 {
      assert names[1..][i - 1] == names[i];
      EntriesInclude(fs, f, dir, names[1..], i - 1, q);
    }
  }

  /** Every root walked in turn, all results in one list (duplicates are kept). */
  function WalkRoots(fs: FS, f: NameFilter, roots: seq<Path>): (r: seq<Path>)
    ensures forall q :: q in r ==> !IsDir(fs, q) && exists root :: root in roots && root <= q
  {
    if roots == [] then []
    else
      assert roots[0] in roots && forall x :: x in roots[1..] ==> x in roots;
      Walk(fs, f, roots[0]) + WalkRoots(fs, f, roots[1..])
  }

  /** Walking several roots emits exactly what some root reaches. */
  lemma {:induction false} WalkRootsReaches(fs: FS, f: NameFilter, roots: seq<Path>, q: Path)
    ensures q in WalkRoots(fs, f, roots) <==> exists r :: r in roots && Reached(fs, f, r, q)
  {
    if roots != [] {
      WalkReaches(fs, f, roots[0], q);
      WalkRootsReaches(fs, f, roots[1..], q);
      assert forall r :: r in roots <==> r == roots[0] || r in roots[1..];
    }
  }
}
