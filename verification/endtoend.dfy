/** A whole run of the newer `execute` on a small tree: one root holding "a" and a directory "s",
    which holds "b", and a file "c" after it; "a" and "b" have the same bytes, "c" other bytes of
    the same length. */
module EndToEnd {
  import opened Results
  import opened Paths
  import opened FileSystem
  import opened Filters
  import opened Walker
  import opened Grouping
  import opened Hashing
  import opened Deletion
  import opened Stages
  import opened Pipeline

  ghost predicate Tree(fs: FS, root: Path, na: string, ns: string, nb: string, nc: string,
                       x: seq<byte>, y: seq<byte>) {
    && root in fs && fs[root] == Dir(Some([na, ns, nc]))
    && root + [ns] in fs && fs[root + [ns]] == Dir(Some([nb]))
    && root + [na] in fs && fs[root + [na]] == File(x, true, true, true)
    && root + [ns, nb] in fs && fs[root + [ns, nb]] == File(x, true, true, true)
    && root + [nc] in fs && fs[root + [nc]] == File(y, true, true, true)
  }

  /** The walk meets "a", then "b" inside "s", then "c". */
  lemma TreeWalk(fs: FS, types: set<string>, root: Path, na: string, ns: string, nb: string, nc: string,
                 x: seq<byte>, y: seq<byte>)
    requires Tree(fs, root, na, ns, nb, nc, x, y)
    requires SuffixMatch(types, na) && SuffixMatch(types, nb) && SuffixMatch(types, nc)
    ensures Walk(fs, Suffixes(types), root) == [root + [na], root + [ns, nb], root + [nc]]
  {
    var f := Suffixes(types);
    ListingWalk(fs, f, root, [na, ns, nc]);
    RootEntries(fs, f, root, na, ns, nb, nc);
  }

  lemma RootEntries(fs: FS, f: NameFilter, root: Path, na: string, ns: string, nb: string, nc: string)
    requires root + [ns] in fs && fs[root + [ns]] == Dir(Some([nb]))
    requires root + [na] in fs && fs[root + [na]].File? && NameAccepted(f, na)
    requires root + [ns, nb] in fs && fs[root + [ns, nb]].File? && NameAccepted(f, nb)
    requires root + [nc] in fs && fs[root + [nc]].File? && NameAccepted(f, nc)
    ensures Entries(fs, f, root, [na, ns, nc]) == [root + [na], root + [ns, nb], root + [nc]]
  {
    var a, b, c := root + [na], root + [ns, nb], root + [nc];
    MiddleEntries(fs, f, root, ns, nb, nc);
    LeafEntry(fs, f, root, na);
    EntryThenRest(fs, f, root, na, [ns, nc]);
    assert [na] + [ns, nc] == [na, ns, nc];
    assert [a] + [b, c] == [a, b, c];
  }

  lemma MiddleEntries(fs: FS, f: NameFilter, root: Path, ns: string, nb: string, nc: string)
    requires root + [ns] in fs && fs[root + [ns]] == Dir(Some([nb]))
    requires root + [ns, nb] in fs && fs[root + [ns, nb]].File? && NameAccepted(f, nb)
    requires root + [nc] in fs && fs[root + [nc]].File? && NameAccepted(f, nc)
    ensures Entries(fs, f, root, [ns, nc]) == [root + [ns, nb], root + [nc]]
  {
    SubdirWalk(fs, f, root, ns, nb);
    LastEntry(fs, f, root, nc);
    EntryThenRest(fs, f, root, ns, [nc]);
    assert [ns] + [nc] == [ns, nc];
    assert Child(root, ns) == root + [ns] && IsDir(fs, root + [ns]);
  }

  /** Walking a directory whose listing is known is the loop over that listing. */
  lemma ListingWalk(fs: FS, f: NameFilter, dir: Path, names: seq<string>)
    requires dir in fs && fs[dir] == Dir(Some(names))
    ensures Walk(fs, f, dir) == Entries(fs, f, dir, names)
  {
  }

  /** The entries of a listing: what the first name contributes, then the rest. */
  lemma EntryThenRest(fs: FS, f: NameFilter, dir: Path, n: string, names: seq<string>)
    ensures Entries(fs, f, dir, [n] + names)
         == (if Accepts(fs, f, Child(dir, n)) then Walk(fs, f, Child(dir, n)) else []) + Entries(fs, f, dir, names)
  {
    assert ([n] + names)[0] == n && ([n] + names)[1..] == names;
  }

  lemma LeafEntry(fs: FS, f: NameFilter, dir: Path, n: string)
    requires dir + [n] in fs && fs[dir + [n]].File? && NameAccepted(f, n)
    ensures Accepts(fs, f, Child(dir, n)) && Walk(fs, f, Child(dir, n)) == [dir + [n]]
  {
    assert Child(dir, n) == dir + [n];
  }

  /** The directory "s" holds the one accepted file "b". */
  lemma SubdirWalk(fs: FS, f: NameFilter, root: Path, ns: string, nb: string)
    requires root + [ns] in fs && fs[root + [ns]] == Dir(Some([nb]))
    requires root + [ns, nb] in fs && fs[root + [ns, nb]].File? && NameAccepted(f, nb)
    ensures root + [ns] in fs && Walk(fs, f, root + [ns]) == [root + [ns, nb]]
  {
    var s, b := root + [ns], root + [ns, nb];
    assert s + [nb] == b;
    ListingWalk(fs, f, s, [nb]);
    LastEntry(fs, f, s, nb);
  }

  lemma LastEntry(fs: FS, f: NameFilter, root: Path, nc: string)
    requires root + [nc] in fs && fs[root + [nc]].File? && NameAccepted(f, nc)
    ensures Entries(fs, f, root, [nc]) == [root + [nc]]
  {
    var c := root + [nc];
    assert c == Child(root, nc);
    assert Walk(fs, f, c) == [c];
    assert [nc][1..] == [];
    assert Entries(fs, f, root, [nc]) == [c] + Entries(fs, f, root, []);
  }

  /** Discovery over the single root. */
  lemma TreeFiles(fs: FS, cfg: Config, a: Path, b: Path, c: Path)
    requires |cfg.roots| == 1 && cfg.roots[0] in fs
    requires Walk(fs, Suffixes(cfg.fileTypes), cfg.roots[0]) == [a, b, c]
    requires IsFile(fs, a) && IsFile(fs, b) && IsFile(fs, c)
    ensures RegularFiles(fs, NewerFiles(fs, cfg)) == [a, b, c]
  {
    SingleRoot(fs, Suffixes(cfg.fileTypes), cfg.roots);
    ThreeRegular(fs, a, b, c);
  }

  lemma SingleRoot(fs: FS, f: NameFilter, roots: seq<Path>)
    requires |roots| == 1 && roots[0] in fs
    ensures WalkRoots(fs, f, ExistingRoots(fs, roots)) == Walk(fs, f, roots[0])
  {
    assert roots[1..] == [];
    assert ExistingRoots(fs, roots) == [roots[0]];
    assert [roots[0]][1..] == [];
  }

  lemma ThreeRegular(fs: FS, a: Path, b: Path, c: Path)
    requires IsFile(fs, a) && IsFile(fs, b) && IsFile(fs, c)
    ensures RegularFiles(fs, [a, b, c]) == [a, b, c]
  {
    var ps := [a, b, c];
    forall i | 0 <= i < |ps| ensures IsFile(fs, ps[i]) {
      assert ps[i] == a || ps[i] == b || ps[i] == c;
    }
    AllRegular(fs, ps);
  }

  lemma {:induction false} AllRegular(fs: FS, ps: seq<Path>)
    requires forall i :: 0 <= i < |ps| ==> IsFile(fs, ps[i])
    ensures RegularFiles(fs, ps) == ps
  {
    if ps != [] {
      assert IsFile(fs, ps[0]);
      AllRegular(fs, ps[1..]);
      assert [ps[0]] + ps[1..] == ps;
    }
  }

  /** Three distinct files of one length: the size gate lets all three through, in order. */
  lemma GateOfThree(fs: FS, a: Path, b: Path, c: Path)
    requires a != b && b != c && a != c
    requires Length(fs, a) == Length(fs, b) == Length(fs, c)
    ensures SizeGate(fs, [a, b, c]) == [a, b, c]
  {
    var n := Length(fs, a);
    BySizeThree(fs, a, b, c);
    ThreeOneKey(n, a, b, c);
    OneBucket(Group(n, [a, b, c]));
    DedupThree(a, b, c);
  }

  lemma BySizeThree(fs: FS, a: Path, b: Path, c: Path)
    ensures BySize(fs, [a, b, c]) == [(a, Length(fs, a)), (b, Length(fs, b)), (c, Length(fs, c))]
  {
  }

  lemma OneBucket<K(!new), T(!new)>(g: Group<K, T>)
    requires |g.members| > 1
    ensures Flatten(Duplicated([g])) == g.members
  {
    var none: seq<Group<K, T>> := [];
    assert [g][1..] == none;
    assert Duplicated([g]) == [g] + Duplicated(none);
    assert Flatten([g]) == g.members + Flatten(none);
  }

  lemma DedupThree<T(!new)>(a: T, b: T, c: T)
    requires a != b && b != c && a != c
    ensures Dedup([a, b, c]) == [a, b, c]
  {
    var s := [a, b, c];
    assert s[..2] == [a, b] && [a, b][..1] == [a] && [a][..0] == [];
    assert Dedup([a]) == [a];
    assert Dedup([a, b]) == [a] + [b];
    assert Dedup(s) == [a, b] + [c];
  }

  lemma FirstTwo<K(!new), T>(k: K, a: T, b: T)
    ensures GroupBy([(a, k), (b, k)]) == [Group(k, [a, b])]
  {
    var none: seq<(T, K)> := [];
    var one := GroupBy([(a, k)]);
    GroupByStep(none, (a, k));
    assert none + [(a, k)] == [(a, k)];
    assert GroupBy(none) == [];
    assert one == Insert([], a, k);
    GroupByStep([(a, k)], (b, k));
    assert [(a, k)] + [(b, k)] == [(a, k), (b, k)];
    assert GroupBy([(a, k), (b, k)]) == Insert(one, b, k);
    assert one == [Group(k, [a])];
    AppendToOnly(k, [a], b);
    assert [a] + [b] == [a, b];
  }

  lemma ThreeOneKey<K(!new), T>(k: K, a: T, b: T, c: T)
    ensures GroupBy([(a, k), (b, k), (c, k)]) == [Group(k, [a, b, c])]
  {
    FirstTwo(k, a, b);
    GroupByStep([(a, k), (b, k)], (c, k));
    assert [(a, k), (b, k)] + [(c, k)] == [(a, k), (b, k), (c, k)];
    assert GroupBy([(a, k), (b, k), (c, k)]) == Insert([Group(k, [a, b])], c, k);
    AppendToOnly(k, [a, b], c);
    assert [a, b] + [c] == [a, b, c];
  }

  lemma TwoThenOne<K(!new), T>(k: K, k': K, a: T, b: T, c: T)
    requires k != k'
    ensures GroupBy([(a, k), (b, k), (c, k')]) == [Group(k, [a, b]), Group(k', [c])]
  {
    FirstTwo(k, a, b);
    GroupByStep([(a, k), (b, k)], (c, k'));
    assert [(a, k), (b, k)] + [(c, k')] == [(a, k), (b, k), (c, k')];
    OpenAfterOnly(k, [a, b], c, k');
  }

  lemma GroupByStep<K(!new), T>(xs: seq<(T, K)>, x: (T, K))
    ensures GroupBy(xs + [x]) == Insert(GroupBy(xs), x.0, x.1)
  {
    assert (xs + [x])[..|xs|] == xs;
  }

  lemma AppendToOnly<K, T>(k: K, ms: seq<T>, x: T)
    ensures Insert([Group(k, ms)], x, k) == [Group(k, ms + [x])]
  {
    assert [Group(k, ms)][1..] == [];
  }

  lemma OpenAfterOnly<K, T>(k: K, ms: seq<T>, x: T, k': K)
    requires k != k'
    ensures Insert([Group(k, ms)], x, k') == [Group(k, ms), Group(k', [x])]
  {
    assert [Group(k, ms)][1..] == [];
  }

  /** Hashing the three files: "a" and "b" share a digest, "c" has another. */
  lemma HashOfThree(fs: FS, reg: Registry, alg: string, a: Path, b: Path, c: Path)
      returns (hx: string, hy: string)
    requires FileDigest(StreamFirst, fs, reg, alg, a).Ok? && FileDigest(StreamFirst, fs, reg, alg, c).Ok?
    requires FileDigest(StreamFirst, fs, reg, alg, b) == FileDigest(StreamFirst, fs, reg, alg, a)
    requires FileDigest(StreamFirst, fs, reg, alg, c) != FileDigest(StreamFirst, fs, reg, alg, a)
    ensures hx != hy
    ensures HashAll(StreamFirst, fs, reg, alg, [a, b, c]) == Ok([(a, hx), (b, hx), (c, hy)])
  {
    hx := FileDigest(StreamFirst, fs, reg, alg, a).value;
    hy := FileDigest(StreamFirst, fs, reg, alg, c).value;
    var r := HashAll(StreamFirst, fs, reg, alg, [a, b, c]);
    assert r.Ok?;
    assert Items(r.value) == [a, b, c];
    assert |r.value| == 3;
    assert r.value[0] == (a, hx) && r.value[1] == (b, hx) && r.value[2] == (c, hy) by {
      assert Items(r.value)[0] == a && Items(r.value)[1] == b && Items(r.value)[2] == c;
      assert Ok(r.value[0].1) == FileDigest(StreamFirst, fs, reg, alg, [a, b, c][0]);
      assert Ok(r.value[1].1) == FileDigest(StreamFirst, fs, reg, alg, [a, b, c][1]);
      assert Ok(r.value[2].1) == FileDigest(StreamFirst, fs, reg, alg, [a, b, c][2]);
    }
    assert r.value == [(a, hx), (b, hx), (c, hy)];
  }

  /** Grouping by digest and dropping first members attempts only "b". */
  lemma EliminateOfThree(fs: FS, a: Path, b: Path, c: Path, hx: string, hy: string)
    requires hx != hy && Removable(fs, b)
    ensures var r := Eliminate(JavaRule, fs, [(a, hx), (b, hx), (c, hy)], true);
      && r.hashGroups == [Group(hx, [a, b]), Group(hy, [c])]
      && r.attempted == [b]
      && r.elimination == Elimination([b], [], fs - {b})
  {
    TwoThenOne(hx, hy, a, b, c);
    AttemptsTwoThenOne(hx, hy, a, b, c);
    DeleteOne(fs, b);
  }

  lemma AttemptsTwoThenOne<K, T>(k: K, k': K, a: T, b: T, c: T)
    ensures Attempts([Group(k, [a, b]), Group(k', [c])]) == [b]
  {
    var gs := [Group(k, [a, b]), Group(k', [c])];
    var none: seq<Group<K, T>> := [];
    assert gs[1..] == [Group(k', [c])] && gs[1..][1..] == none;
    assert Attempts(gs[1..]) == [] + Attempts(none);
    assert Attempts(gs) == [b] + Attempts(gs[1..]);
  }

  lemma DeleteOne(fs: FS, b: Path)
    requires Removable(fs, b)
    ensures DeleteAll(JavaRule, fs, [b]) == Elimination([b], [], fs - {b})
  {
    assert [b][1..] == [];
  }

  /** The run over the tree processes three files (all share one length), deletes exactly "b",
      and leaves "a" and "c" as they were. */
  lemma TreeRun(fs: FS, reg: Registry, root: Path, na: string, ns: string, nb: string, nc: string,
                x: seq<byte>, y: seq<byte>, types: set<string>, alg: string)
    requires Tree(fs, root, na, ns, nb, nc, x, y)
    requires na != ns && na != nc && ns != nc
    requires SuffixMatch(types, na) && SuffixMatch(types, nb) && SuffixMatch(types, nc)
    requires |x| == |y| && alg in reg && reg[alg](x) != reg[alg](y)
    ensures var r := NewerExecute(fs, reg, Config([root], types, alg));
      && r.Ok?
      && r.value.FilesProcessed() == 3
      && r.value.FilesDeleted() == 1
      && r.value.elimination.deleted == [root + [ns, nb]]
      && r.value.elimination.after == fs - {root + [ns, nb]}
  {
    var cfg := Config([root], types, alg);
    var a, b, c := root + [na], root + [ns, nb], root + [nc];
    TreeCandidates(fs, root, na, ns, nb, nc, x, y, cfg);
    TreeDigests(fs, reg, alg, a, b, c, x, y);
    var hx, hy := HashOfThree(fs, reg, alg, a, b, c);
    RunOnCandidates(fs, reg, cfg, [a, b, c], [(a, hx), (b, hx), (c, hy)]);
    EliminateOfThree(fs, a, b, c, hx, hy);
    FlattenTwoThenOne(hx, hy, a, b, c);
  }

  /** The size gate passes all three files of the tree, in walk order. */
  lemma TreeCandidates(fs: FS, root: Path, na: string, ns: string, nb: string, nc: string,
                       x: seq<byte>, y: seq<byte>, cfg: Config)
    requires Tree(fs, root, na, ns, nb, nc, x, y)
    requires na != ns && na != nc && ns != nc && |x| == |y|
    requires SuffixMatch(cfg.fileTypes, na) && SuffixMatch(cfg.fileTypes, nb) && SuffixMatch(cfg.fileTypes, nc)
    requires cfg.roots == [root]
    ensures NewerCandidates(fs, cfg) == [root + [na], root + [ns, nb], root + [nc]]
  {
    var a, b, c := root + [na], root + [ns, nb], root + [nc];
    assert a != b && b != c && a != c by {
      assert a[|root|] == na && b[|root|] == ns && c[|root|] == nc;
    }
    TreeWalk(fs, cfg.fileTypes, root, na, ns, nb, nc, x, y);
    TreeFiles(fs, cfg, a, b, c);
    GateOfThree(fs, a, b, c);
  }

  /** "a" and "b" hold the same bytes and so the same digest; "c" holds bytes that digest differently. */
  lemma TreeDigests(fs: FS, reg: Registry, alg: string, a: Path, b: Path, c: Path, x: seq<byte>, y: seq<byte>)
    requires a in fs && fs[a] == File(x, true, true, true)
    requires b in fs && fs[b] == File(x, true, true, true)
    requires c in fs && fs[c] == File(y, true, true, true)
    requires alg in reg && reg[alg](x) != reg[alg](y)
    ensures FileDigest(StreamFirst, fs, reg, alg, a).Ok? && FileDigest(StreamFirst, fs, reg, alg, c).Ok?
    ensures FileDigest(StreamFirst, fs, reg, alg, b) == FileDigest(StreamFirst, fs, reg, alg, a)
    ensures FileDigest(StreamFirst, fs, reg, alg, c) != FileDigest(StreamFirst, fs, reg, alg, a)
    ensures Removable(fs, b)
  {
    SameDigestString(StreamFirst, fs, reg, alg, a, b);
    SameDigestString(StreamFirst, fs, reg, alg, a, c);
  }

  lemma FlattenTwoThenOne<K, T>(k: K, k': K, a: T, b: T, c: T)
    ensures |Flatten([Group(k, [a, b]), Group(k', [c])])| == 3
  {
    var gs := [Group(k, [a, b]), Group(k', [c])];
    assert gs[1..] == [Group(k', [c])] && gs[1..][1..] == [];
    assert Flatten(gs[1..]) == [c] + Flatten(gs[1..][1..]);
  }

  lemma RunOnCandidates(fs: FS, reg: Registry, cfg: Config, cands: seq<Path>, hashed: seq<(Path, string)>)
    requires NewerCandidates(fs, cfg) == cands
    requires HashAll(StreamFirst, fs, reg, cfg.algorithm, cands) == Ok(hashed)
    ensures NewerExecute(fs, reg, cfg) == Ok(Eliminate(JavaRule, fs, hashed, true))
  {
  }

  /** A run over one root that is an empty directory processes nothing and changes nothing. */
  lemma EmptyRootRun(fs: FS, reg: Registry, root: Path, types: set<string>, alg: string)
    requires root in fs && fs[root] == Dir(Some([]))
    ensures var r := NewerExecute(fs, reg, Config([root], types, alg));
      && r.Ok?
      && r.value.FilesProcessed() == 0
      && r.value.FilesDeleted() == 0
      && r.value.elimination.after == fs
  {
    var cfg := Config([root], types, alg);
    ListingWalk(fs, Suffixes(types), root, []);
    SingleRoot(fs, Suffixes(types), cfg.roots);
    AllRegular(fs, []);
    assert NewerCandidates(fs, cfg) == [];
    var none: seq<(Path, string)> := [];
    RunOnCandidates(fs, reg, cfg, [], none);
    assert GroupBy(none) == [];
    var noGroups: seq<Group<string, Path>> := [];
    assert Attempts(noGroups) == [];
  }
}
