/** The three `execute` variants: the newer Java one (root existence check and size gate), the older
    Java one (every regular file hashed) and the Kotlin one (extension filter, exists-and-delete). */
module Pipeline {
  import opened Results
  import opened Paths
  import opened FileSystem
  import opened Filters
  import opened Walker
  import opened Grouping
  import opened Hashing
  import opened Deletion
  import opened Stages

  /** What the CLI layer hands to `execute`: the roots, the accepted file types, the algorithm name. */
  datatype Config = Config(roots: seq<Path>, fileTypes: set<string>, algorithm: string)

  /** One completed run: the hash groups, the files handed to `delete`, and the outcome buckets. */
  datatype Run = Run(hashGroups: seq<Group<string, Path>>, attempted: seq<Path>, elimination: Elimination) {

    /** "Files found to process": the members of all hash groups together. */
    function FilesProcessed(): nat {
      |Flatten(hashGroups)|
    }

    /** "Files deleted": the size of the TRUE bucket. */
    function FilesDeleted(): nat {
      |elimination.deleted|
    }
  }

  /** Group the hashed files by digest string, keep the first of each group, delete the rest;
      `onlyDuplicates` is the newer version's `size() > 1` filter. */
  function Eliminate(rule: Rule, fs: FS, hashed: seq<(Path, string)>, onlyDuplicates: bool): (r: Run)
    ensures r.hashGroups == GroupBy(hashed)
    ensures r.attempted == Attempts(r.hashGroups)
    ensures r.elimination == DeleteAll(rule, fs, r.attempted)
  {
    var groups := GroupBy(hashed);
    var attempted := if onlyDuplicates then Attempts(Duplicated(groups)) else Attempts(groups);
    DuplicatedAttempts(groups);
    Run(groups, attempted, DeleteAll(rule, fs, attempted))
  }

  /** Every hashed file is processed once, and a group of N members yields N - 1 attempts. */
  lemma EliminateCounts(rule: Rule, fs: FS, hashed: seq<(Path, string)>, onlyDuplicates: bool)
    ensures var r := Eliminate(rule, fs, hashed, onlyDuplicates);
      && r.FilesProcessed() == |hashed|
      && |r.attempted| == r.FilesProcessed() - |r.hashGroups|
  {
    var groups := GroupBy(hashed);
    assert |multiset(Flatten(groups))| == |multiset(Items(hashed))|;
    SurvivorsAndAttempts(groups);
  }

  /** With no file hashed twice, no file is attempted twice, and the first member of every hash
      group is never attempted and is left exactly as it was. */
  lemma EliminateKeepsSurvivors(rule: Rule, fs: FS, hashed: seq<(Path, string)>, onlyDuplicates: bool)
    requires Distinct(Items(hashed))
    ensures var r := Eliminate(rule, fs, hashed, onlyDuplicates);
      && Distinct(r.attempted)
      && forall i :: 0 <= i < |r.hashGroups| ==>
           var s := r.hashGroups[i].members[0];
           s !in r.attempted && s !in r.elimination.deleted
           && (s in fs ==> s in r.elimination.after && r.elimination.after[s] == fs[s])
  {
    var groups := GroupBy(hashed);
    AttemptsSafe(groups);
  }

  /** Hash the given files with one algorithm and eliminate; any hash failure aborts before
      anything is deleted. */
  function HashAndEliminate(order: CheckOrder, rule: Rule, fs: FS, reg: Registry, alg: string,
                            files: seq<Path>, onlyDuplicates: bool): (r: Result<Run, HashError>)
    ensures r.Ok? <==> forall p :: p in files ==> FileDigest(order, fs, reg, alg, p).Ok?
    ensures r.Err? ==> exists p :: p in files && FileDigest(order, fs, reg, alg, p) == Err(r.error)
    ensures r.Ok? ==> r.value.FilesProcessed() == |files|
    ensures r.Ok? ==> |r.value.attempted| == |files| - |r.value.hashGroups|
  {
    var hashed :- HashAll(order, fs, reg, alg, files);
    EliminateCounts(rule, fs, hashed, onlyDuplicates);
    Ok(Eliminate(rule, fs, hashed, onlyDuplicates))
  }

  /** Every member of a hash group is one of the hashed files and has the group's digest. */
  lemma GroupsShareDigest(order: CheckOrder, rule: Rule, fs: FS, reg: Registry, alg: string,
                          files: seq<Path>, onlyDuplicates: bool, i: nat, x: Path)
    requires HashAndEliminate(order, rule, fs, reg, alg, files, onlyDuplicates).Ok?
    requires i < |HashAndEliminate(order, rule, fs, reg, alg, files, onlyDuplicates).value.hashGroups|
    requires x in HashAndEliminate(order, rule, fs, reg, alg, files, onlyDuplicates).value.hashGroups[i].members
    ensures x in files
    ensures FileDigest(order, fs, reg, alg, x)
         == Ok(HashAndEliminate(order, rule, fs, reg, alg, files, onlyDuplicates).value.hashGroups[i].key)
  {
    var hashed := HashAll(order, fs, reg, alg, files).value;
    GroupMembers(hashed, i, x);
    var j :| 0 <= j < |hashed| && hashed[j] == (x, GroupBy(hashed)[i].key);
    assert Items(hashed)[j] == files[j];
  }

  /** With a collision-free algorithm, two members of one hash group have the same content, so
      files of different lengths never share a group; without it, only the digest is shared. */
  lemma GroupsShareLength(order: CheckOrder, rule: Rule, fs: FS, reg: Registry, alg: string,
                          files: seq<Path>, onlyDuplicates: bool, i: nat, x: Path, y: Path)
    requires alg in reg ==> forall u, v :: reg[alg](u) == reg[alg](v) ==> u == v
    requires HashAndEliminate(order, rule, fs, reg, alg, files, onlyDuplicates).Ok?
    requires i < |HashAndEliminate(order, rule, fs, reg, alg, files, onlyDuplicates).value.hashGroups|
    requires x in HashAndEliminate(order, rule, fs, reg, alg, files, onlyDuplicates).value.hashGroups[i].members
    requires y in HashAndEliminate(order, rule, fs, reg, alg, files, onlyDuplicates).value.hashGroups[i].members
    ensures IsFile(fs, x) && IsFile(fs, y)
    ensures fs[x].content == fs[y].content
    ensures Length(fs, x) == Length(fs, y)
  {
    GroupsShareDigest(order, rule, fs, reg, alg, files, onlyDuplicates, i, x);
    GroupsShareDigest(order, rule, fs, reg, alg, files, onlyDuplicates, i, y);
    SameDigestString(order, fs, reg, alg, x, y);
  }

  /** With no file listed twice, every hashed file still has a copy with its digest afterwards:
      the survivor of its group, which is never touched. */
  lemma EveryDigestKeepsACopy(order: CheckOrder, rule: Rule, fs: FS, reg: Registry, alg: string,
                              files: seq<Path>, onlyDuplicates: bool, p: Path)
    requires Distinct(files)
    requires HashAndEliminate(order, rule, fs, reg, alg, files, onlyDuplicates).Ok?
    requires p in files
    ensures var r := HashAndEliminate(order, rule, fs, reg, alg, files, onlyDuplicates).value;
      exists s :: s in r.elimination.after && s !in r.attempted && s in files
        && r.elimination.after[s] == fs[s]
        && FileDigest(order, fs, reg, alg, s) == FileDigest(order, fs, reg, alg, p)
  {
    var hashed := HashAll(order, fs, reg, alg, files).value;
    var r := Eliminate(rule, fs, hashed, onlyDuplicates);
    var groups := r.hashGroups;
    EliminateKeepsSurvivors(rule, fs, hashed, onlyDuplicates);
    assert p in multiset(Items(hashed));
    InFlatten(groups, p);
    var i :| 0 <= i < |groups| && p in groups[i].members;
    var s := groups[i].members[0];
    GroupsShareDigest(order, rule, fs, reg, alg, files, onlyDuplicates, i, p);
    GroupsShareDigest(order, rule, fs, reg, alg, files, onlyDuplicates, i, s);
    assert s in fs;
  }

  // ---------------------------------------------------------------- newer Java version

  /** Discovery: only existing roots are walked, with the suffix filter. */
  function NewerFiles(fs: FS, cfg: Config): (r: seq<Path>)
    ensures forall q :: q in r ==> !IsDir(fs, q) && exists root :: root in cfg.roots && Exists(fs, root) && root <= q
  {
    WalkRoots(fs, Suffixes(cfg.fileTypes), ExistingRoots(fs, cfg.roots))
  }

  /** The hash candidates: regular files sharing their length with another discovered entry. */
  function NewerCandidates(fs: FS, cfg: Config): (r: seq<Path>)
    ensures Distinct(r)
    ensures forall p :: p in r <==>
      p in NewerFiles(fs, cfg) && IsFile(fs, p)
      && |WithLength(fs, RegularFiles(fs, NewerFiles(fs, cfg)), Length(fs, p))| >= 2
  {
    SizeGate(fs, RegularFiles(fs, NewerFiles(fs, cfg)))
  }

  /** The newer `execute`. */
  function NewerExecute(fs: FS, reg: Registry, cfg: Config): (r: Result<Run, HashError>)
    ensures r.Ok? <==> forall p :: p in NewerCandidates(fs, cfg) ==> FileDigest(StreamFirst, fs, reg, cfg.algorithm, p).Ok?
    ensures r.Ok? ==> r.value.FilesProcessed() == |NewerCandidates(fs, cfg)|
  {
    HashAndEliminate(StreamFirst, JavaRule, fs, reg, cfg.algorithm, NewerCandidates(fs, cfg), true)
  }

  /** What a successful newer run does to the filesystem: only candidates are attempted, none twice,
      no group's first member is attempted, and nothing else changes. */
  lemma NewerExecuteEffects(fs: FS, reg: Registry, cfg: Config)
    requires NewerExecute(fs, reg, cfg).Ok?
    ensures var r := NewerExecute(fs, reg, cfg).value;
      && Distinct(r.attempted)
      && (forall q :: q in r.attempted ==> q in NewerCandidates(fs, cfg))
      && (forall i :: 0 <= i < |r.hashGroups| ==> r.hashGroups[i].members[0] !in r.attempted)
      && (forall q :: q in r.elimination.deleted <==> q in r.attempted && Removable(fs, q))
      && (forall q :: q !in r.attempted ==> (q in r.elimination.after <==> q in fs))
      && (forall q :: q in r.elimination.after ==> r.elimination.after[q] == fs[q])
  {
    var cands := NewerCandidates(fs, cfg);
    var hashed := HashAll(StreamFirst, fs, reg, cfg.algorithm, cands).value;
    assert NewerExecute(fs, reg, cfg) == Ok(Eliminate(JavaRule, fs, hashed, true));
    EliminateEffects(JavaRule, fs, hashed, true);
  }

  lemma EliminateEffects(rule: Rule, fs: FS, hashed: seq<(Path, string)>, onlyDuplicates: bool)
    requires Distinct(Items(hashed))
    ensures var r := Eliminate(rule, fs, hashed, onlyDuplicates);
      && Distinct(r.attempted)
      && (forall q :: q in r.attempted ==> q in Items(hashed))
      && (forall i :: 0 <= i < |r.hashGroups| ==> r.hashGroups[i].members[0] !in r.attempted)
      && (forall q :: q in r.elimination.deleted <==> q in r.attempted && Removable(fs, q))
      && (forall q :: q !in r.attempted ==> (q in r.elimination.after <==> q in fs))
      && (forall q :: q in r.elimination.after ==> r.elimination.after[q] == fs[q])
  {
    EliminateKeepsSurvivors(rule, fs, hashed, onlyDuplicates);
    var groups := GroupBy(hashed);
    AttemptsInFlatten(groups);
    assert forall q :: q in Flatten(groups) ==> q in multiset(Items(hashed));
  }

  /** A successful newer run never loses content: every candidate still has a copy with its
      digest, left exactly as it was. */
  lemma NewerKeepsACopy(fs: FS, reg: Registry, cfg: Config, p: Path)
    requires NewerExecute(fs, reg, cfg).Ok?
    requires p in NewerCandidates(fs, cfg)
    ensures var r := NewerExecute(fs, reg, cfg).value;
      exists s :: s in NewerCandidates(fs, cfg) && s in r.elimination.after && r.elimination.after[s] == fs[s]
        && FileDigest(StreamFirst, fs, reg, cfg.algorithm, s) == FileDigest(StreamFirst, fs, reg, cfg.algorithm, p)
  {
    EveryDigestKeepsACopy(StreamFirst, JavaRule, fs, reg, cfg.algorithm, NewerCandidates(fs, cfg), true, p);
  }

  /** An unknown algorithm aborts the newer run exactly when there is something to hash. */
  lemma NewerUnknownAlgorithm(fs: FS, reg: Registry, cfg: Config)
    requires cfg.algorithm !in reg
    ensures NewerExecute(fs, reg, cfg).Ok? <==> NewerCandidates(fs, cfg) == []
  {
    if NewerCandidates(fs, cfg) != [] {
      assert NewerCandidates(fs, cfg)[0] in NewerCandidates(fs, cfg);
    }
  }

  // ---------------------------------------------------------------- older Java version

  /** Discovery: every root walked, existing or not, then `filter(File::isFile)`. */
  function OlderFiles(fs: FS, cfg: Config): (r: seq<Path>)
    ensures forall q :: q in r ==> IsFile(fs, q) && exists root :: root in cfg.roots && root <= q
  {
    RegularFiles(fs, WalkRoots(fs, Suffixes(cfg.fileTypes), cfg.roots))
  }

  /** `sizes.values().stream().flatMap(...)`: the files in size-group order, each occurrence once. */
  function SizeOrder(fs: FS, files: seq<Path>): (r: seq<Path>)
    ensures multiset(r) == multiset(files)
    ensures |r| == |files|
    ensures forall p :: p in r <==> p in files
    ensures Distinct(files) ==> Distinct(r)
  {
    var r := Flatten(GroupBy(BySize(fs, files)));
    assert forall p :: p in r <==> p in multiset(files);
    assert |multiset(r)| == |multiset(files)|;
    r
  }

  /** The older `execute`: no size gate, and every hash group drops its first member. */
  function OlderExecute(fs: FS, reg: Registry, cfg: Config): (r: Result<Run, HashError>)
    ensures r.Ok? <==> forall p :: p in OlderFiles(fs, cfg) ==> FileDigest(StreamFirst, fs, reg, cfg.algorithm, p).Ok?
    ensures r.Ok? ==> r.value.FilesProcessed() == |OlderFiles(fs, cfg)|
    ensures r.Ok? ==> |r.value.attempted| == r.value.FilesProcessed() - |r.value.hashGroups|
  {
    var files := SizeOrder(fs, OlderFiles(fs, cfg));
    HashAndEliminate(StreamFirst, JavaRule, fs, reg, cfg.algorithm, files, false)
  }

  /** A root that does not exist is emitted by the walk but removed by the `isFile` filter. */
  lemma MissingRootContributesNothing(fs: FS, f: NameFilter, root: Path)
    requires !Exists(fs, root)
    ensures Walk(fs, f, root) == [root]
    ensures RegularFiles(fs, Walk(fs, f, root)) == []
  {
  }

  /** The older `execute` with the discovered list reduced to one entry per file. */
  function OlderExecuteDistinct(fs: FS, reg: Registry, cfg: Config): (r: Result<Run, HashError>)
    ensures r.Ok? <==> forall p :: p in OlderFiles(fs, cfg) ==> FileDigest(StreamFirst, fs, reg, cfg.algorithm, p).Ok?
  {
    var files := SizeOrder(fs, Dedup(OlderFiles(fs, cfg)));
    HashAndEliminate(StreamFirst, JavaRule, fs, reg, cfg.algorithm, files, false)
  }

  /** The corrected older run never attempts the file a group keeps, whatever the roots. */
  lemma OlderDistinctKeepsSurvivors(fs: FS, reg: Registry, cfg: Config)
    requires OlderExecuteDistinct(fs, reg, cfg).Ok?
    ensures var r := OlderExecuteDistinct(fs, reg, cfg).value;
      && Distinct(r.attempted)
      && forall i :: 0 <= i < |r.hashGroups| ==>
           var s := r.hashGroups[i].members[0];
           s !in r.elimination.deleted && (s in fs ==> s in r.elimination.after)
  {
    var files := SizeOrder(fs, Dedup(OlderFiles(fs, cfg)));
    var hashed := HashAll(StreamFirst, fs, reg, cfg.algorithm, files).value;
    EliminateKeepsSurvivors(JavaRule, fs, hashed, false);
  }

  /** The corrected older run never loses content: every discovered file still has a copy with
      its digest, left exactly as it was, whatever the roots. */
  lemma OlderDistinctKeepsACopy(fs: FS, reg: Registry, cfg: Config, p: Path)
    requires OlderExecuteDistinct(fs, reg, cfg).Ok?
    requires p in OlderFiles(fs, cfg)
    ensures var r := OlderExecuteDistinct(fs, reg, cfg).value;
      exists s :: s in OlderFiles(fs, cfg) && s in r.elimination.after && r.elimination.after[s] == fs[s]
        && FileDigest(StreamFirst, fs, reg, cfg.algorithm, s) == FileDigest(StreamFirst, fs, reg, cfg.algorithm, p)
  {
    var files := SizeOrder(fs, Dedup(OlderFiles(fs, cfg)));
    EveryDigestKeepsACopy(StreamFirst, JavaRule, fs, reg, cfg.algorithm, files, false, p);
  }

  // ---------------------------------------------------------------- Kotlin version

  /** Discovery: `walkTopDown` of every root, then `isFile` and the extension filter. */
  function KotlinFiles(fs: FS, cfg: Config): (r: seq<Path>)
    ensures forall q :: q in r ==> IsFile(fs, q) && Extension(Name(q)) in cfg.fileTypes
  {
    KotlinSelect(fs, cfg.fileTypes, WalkRoots(fs, AnyName, cfg.roots))
  }

  /** The Kotlin `execute`: no size gate, every hash group keeps its first member,
      and a deletion counts only if the file exists and `delete()` succeeds. */
  function KotlinExecute(fs: FS, reg: Registry, cfg: Config): (r: Result<Run, HashError>)
    ensures r.Ok? <==> forall p :: p in KotlinFiles(fs, cfg) ==> FileDigest(AlgorithmFirst, fs, reg, cfg.algorithm, p).Ok?
    ensures r.Ok? ==> r.value.FilesProcessed() == |KotlinFiles(fs, cfg)|
    ensures r.Ok? ==> |r.value.attempted| == r.value.FilesProcessed() - |r.value.hashGroups|
  {
    var files := SizeOrder(fs, KotlinFiles(fs, cfg));
    HashAndEliminate(AlgorithmFirst, KotlinRule, fs, reg, cfg.algorithm, files, false)
  }

  /** The Kotlin `execute` with the discovered list reduced to one entry per file. */
  function KotlinExecuteDistinct(fs: FS, reg: Registry, cfg: Config): (r: Result<Run, HashError>)
    ensures r.Ok? <==> forall p :: p in KotlinFiles(fs, cfg) ==> FileDigest(AlgorithmFirst, fs, reg, cfg.algorithm, p).Ok?
  {
    var files := SizeOrder(fs, Dedup(KotlinFiles(fs, cfg)));
    HashAndEliminate(AlgorithmFirst, KotlinRule, fs, reg, cfg.algorithm, files, false)
  }

  /** The corrected Kotlin run never attempts the file a group keeps, whatever the roots. */
  lemma KotlinDistinctKeepsSurvivors(fs: FS, reg: Registry, cfg: Config)
    requires KotlinExecuteDistinct(fs, reg, cfg).Ok?
    ensures var r := KotlinExecuteDistinct(fs, reg, cfg).value;
      && Distinct(r.attempted)
      && forall i :: 0 <= i < |r.hashGroups| ==>
           var s := r.hashGroups[i].members[0];
           s !in r.elimination.deleted && (s in fs ==> s in r.elimination.after)
  {
    var files := SizeOrder(fs, Dedup(KotlinFiles(fs, cfg)));
    var hashed := HashAll(AlgorithmFirst, fs, reg, cfg.algorithm, files).value;
    EliminateKeepsSurvivors(KotlinRule, fs, hashed, false);
  }

  /** The corrected Kotlin run never loses content: every discovered file still has a copy with
      its digest, left exactly as it was, whatever the roots. */
  lemma KotlinDistinctKeepsACopy(fs: FS, reg: Registry, cfg: Config, p: Path)
    requires KotlinExecuteDistinct(fs, reg, cfg).Ok?
    requires p in KotlinFiles(fs, cfg)
    ensures var r := KotlinExecuteDistinct(fs, reg, cfg).value;
      exists s :: s in KotlinFiles(fs, cfg) && s in r.elimination.after && r.elimination.after[s] == fs[s]
        && FileDigest(AlgorithmFirst, fs, reg, cfg.algorithm, s) == FileDigest(AlgorithmFirst, fs, reg, cfg.algorithm, p)
  {
    var files := SizeOrder(fs, Dedup(KotlinFiles(fs, cfg)));
    EveryDigestKeepsACopy(AlgorithmFirst, KotlinRule, fs, reg, cfg.algorithm, files, false, p);
  }
}
