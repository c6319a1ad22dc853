/** The stream stages between discovery and elimination: the `isFile` and extension filters,
    grouping by `File.length`, the size gate and the hashing of every candidate. */
module Stages {
  import opened Results
  import opened Paths
  import opened FileSystem
  import opened Filters
  import opened Grouping
  import opened Hashing

  /** `roots.stream().collect(partitioningBy(File::exists))`, the TRUE bucket. */
  function ExistingRoots(fs: FS, roots: seq<Path>): (r: seq<Path>)
    ensures forall p :: p in r <==> p in roots && Exists(fs, p)
  {
    if roots == [] then []
    else (if Exists(fs, roots[0]) then [roots[0]] else []) + ExistingRoots(fs, roots[1..])
  }

  /** `filter(File::isFile)`, keeping order and repeats. */
  function RegularFiles(fs: FS, ps: seq<Path>): (r: seq<Path>)
    ensures forall p :: p in r <==> p in ps && IsFile(fs, p)
    ensures forall p :: p in ps && IsFile(fs, p) ==> multiset(r)[p] == multiset(ps)[p]
  {
    if ps == [] then []
    else
      assert ps == [ps[0]] + ps[1..];
      (if IsFile(fs, ps[0]) then [ps[0]] else []) + RegularFiles(fs, ps[1..])
  }

  /** Kotlin `filter { it.isFile }.filter { fileTypes.contains(it.extension) }`. */
  function KotlinSelect(fs: FS, types: set<string>, ps: seq<Path>): (r: seq<Path>)
    ensures forall p :: p in r <==> p in ps && IsFile(fs, p) && ExtensionMatch(types, Name(p))
  {
    if ps == [] then []
    else
      (if IsFile(fs, ps[0]) && ExtensionMatch(types, Name(ps[0])) then [ps[0]] else [])
      + KotlinSelect(fs, types, ps[1..])
  }

  /** Each file paired with its `File.length`, the key of the size grouping. */
  function BySize(fs: FS, ps: seq<Path>): (r: seq<(Path, nat)>)
    ensures |r| == |ps|
    ensures forall i :: 0 <= i < |ps| ==> r[i] == (ps[i], Length(fs, ps[i]))
    ensures Items(r) == ps
  {
    if ps == [] then []
    else BySize(fs, ps[..|ps| - 1]) + [(ps[|ps| - 1], Length(fs, ps[|ps| - 1]))]
  }

  /** Reference definition: the discovered files of byte length `n`, in discovery order. */
  function WithLength(fs: FS, ps: seq<Path>, n: nat): seq<Path>
  {
    if ps == [] then []
    else WithLength(fs, ps[..|ps| - 1], n) + (if Length(fs, ps[|ps| - 1]) == n then [ps[|ps| - 1]] else [])
  }

  /** The size bucket for `n` is exactly the files of length `n`. */
  lemma {:induction false} SizeBucket(fs: FS, ps: seq<Path>, n: nat)
    ensures Select(BySize(fs, ps), n) == WithLength(fs, ps, n)
  {
    if ps != [] {
      var init := ps[..|ps| - 1];
      SizeBucket(fs, init, n);
      assert BySize(fs, ps)[..|ps| - 1] == BySize(fs, init);
    }
  }

  /** `collect(toSet())` over a list: every item once, first occurrence kept. */
  function Dedup<T(==,!new)>(ps: seq<T>): (r: seq<T>)
    ensures Distinct(r)
    ensures forall p :: p in r <==> p in ps
    ensures |r| <= |ps|
  {
    if ps == [] then []
    else
      var d := Dedup(ps[..|ps| - 1]);
      var last := ps[|ps| - 1];
      assert forall p :: p in ps <==> p in ps[..|ps| - 1] || p == last;
      if last in d then d
      else
        DistinctConcat(d, [last]);
        d + [last]
  }

  /** The newer size gate: files whose length bucket holds more than one entry, as a set. */
  function SizeGate(fs: FS, regular: seq<Path>): (r: seq<Path>)
    ensures Distinct(r)
    ensures forall p :: p in r <==> p in regular && |WithLength(fs, regular, Length(fs, p))| >= 2
  {
    var gs := GroupBy(BySize(fs, regular));
    var r := Dedup(Flatten(Duplicated(gs)));
    forall p ensures p in r <==> p in regular && |WithLength(fs, regular, Length(fs, p))| >= 2 {
      SizeGateMember(fs, regular, p);
    }
    r
  }

  lemma SizeGateMember(fs: FS, regular: seq<Path>, p: Path)
    ensures p in Flatten(Duplicated(GroupBy(BySize(fs, regular))))
        <==> p in regular && |WithLength(fs, regular, Length(fs, p))| >= 2
  {
    if p in Flatten(Duplicated(GroupBy(BySize(fs, regular)))) {
      SizeGateSound(fs, regular, p);
    }
    if p in regular && |WithLength(fs, regular, Length(fs, p))| >= 2 {
      SizeGateComplete(fs, regular, p);
    }
  }

  lemma SizeGateSound(fs: FS, regular: seq<Path>, p: Path)
    requires p in Flatten(Duplicated(GroupBy(BySize(fs, regular))))
    ensures p in regular && |WithLength(fs, regular, Length(fs, p))| >= 2
  {
    var xs := BySize(fs, regular);
    var gs := GroupBy(xs);
    var k := DuplicatedBucketOf(gs, p);
    var key := gs[k].key;
    GroupMembers(xs, k, p);
    var j :| 0 <= j < |xs| && xs[j] == (p, key);
    assert regular[j] == p && key == Length(fs, p);
    SizeBucket(fs, regular, key);
  }

  /** The bucket, of more than one member, that an item of the duplicated buckets came from. */
  lemma DuplicatedBucketOf(gs: seq<Group<nat, Path>>, p: Path) returns (k: nat)
    requires p in Flatten(Duplicated(gs))
    ensures k < |gs| && p in gs[k].members && |gs[k].members| > 1
  {
    var dup := Duplicated(gs);
    InFlatten(dup, p);
    var i :| 0 <= i < |dup| && p in dup[i].members;
    assert dup[i] in dup;
    assert dup[i] in gs;
    k :| 0 <= k < |gs| && gs[k] == dup[i];
  }

  lemma SizeGateComplete(fs: FS, regular: seq<Path>, p: Path)
    requires p in regular && |WithLength(fs, regular, Length(fs, p))| >= 2
    ensures p in Flatten(Duplicated(GroupBy(BySize(fs, regular))))
  {
    var xs := BySize(fs, regular);
    var gs := GroupBy(xs);
    var dup := Duplicated(gs);
    var n := Length(fs, p);
    var j :| 0 <= j < |regular| && regular[j] == p;
    SizeBucket(fs, regular, n);
    assert xs[j] == (p, n);
    SelectMember(xs, n, p);
    FindExists(gs, n);
    var k :| 0 <= k < |gs| && gs[k].key == n && gs[k].members == Find(gs, n);
    assert gs[k] in dup;
    InFlatten(dup, p);
  }

  /** What hashing `ps` in order yields: success exactly when every file digests, then one pair
      per file in order, each with that file's digest; otherwise the error of one of the files. */
  ghost predicate Hashes(order: CheckOrder, fs: FS, reg: Registry, alg: string, ps: seq<Path>,
                         r: Result<seq<(Path, string)>, HashError>) {
    && (r.Ok? <==> forall p :: p in ps ==> FileDigest(order, fs, reg, alg, p).Ok?)
    && (r.Ok? ==> Items(r.value) == ps)
    && (r.Ok? ==> forall i :: 0 <= i < |ps| ==> Ok(r.value[i].1) == FileDigest(order, fs, reg, alg, ps[i]))
    && (r.Err? ==> exists p :: p in ps && FileDigest(order, fs, reg, alg, p) == Err(r.error))
  }

  /** Every file hashed in order; the first failure aborts the whole stage. */
  function HashAll(order: CheckOrder, fs: FS, reg: Registry, alg: string, ps: seq<Path>)
    : (r: Result<seq<(Path, string)>, HashError>)
    ensures r.Ok? <==> forall p :: p in ps ==> FileDigest(order, fs, reg, alg, p).Ok?
    ensures r.Ok? ==> Items(r.value) == ps
    ensures r.Ok? ==> forall i :: 0 <= i < |ps| ==> Ok(r.value[i].1) == FileDigest(order, fs, reg, alg, ps[i])
    ensures r.Err? ==> exists p :: p in ps && FileDigest(order, fs, reg, alg, p) == Err(r.error)
  {
    if ps == [] then Ok([])
    else
      var init := ps[..|ps| - 1];
      var last := ps[|ps| - 1];
      var prev := HashAll(order, fs, reg, alg, init);
      var r := match prev
        case Err(e) => Err(e)
        case Ok(done) =>
          match FileDigest(order, fs, reg, alg, last)
          case Err(e) => Err(e)
          case Ok(d) => Ok(done + [(last, d)]);
      HashStep(order, fs, reg, alg, init, last, ps, prev, r);
      r
  }

  /** Hashing one more file after the ones before it. */
  lemma HashStep(order: CheckOrder, fs: FS, reg: Registry, alg: string, init: seq<Path>, last: Path,
                 ps: seq<Path>, prev: Result<seq<(Path, string)>, HashError>, r: Result<seq<(Path, string)>, HashError>)
    requires ps == init + [last]
    requires Hashes(order, fs, reg, alg, init, prev)
    requires r == match prev
        case Err(e) => Err(e)
        case Ok(done) =>
          match FileDigest(order, fs, reg, alg, last)
          case Err(e) => Err(e)
          case Ok(d) => Ok(done + [(last, d)])
    ensures Hashes(order, fs, reg, alg, ps, r)
  {
    assert forall p :: p in ps <==> p in init || p == last;
    if prev.Ok? && FileDigest(order, fs, reg, alg, last).Ok? {
      var d := FileDigest(order, fs, reg, alg, last).value;
      assert Items(prev.value + [(last, d)]) == Items(prev.value) + [last];
    }
  }
}
