/** The older Java and the Kotlin `execute` delete the only copy of a file whenever two roots
    overlap, because the overlapping subtree is walked twice and the file then forms a hash group
    with itself. The newer version's `toSet` avoids this; `OlderExecuteDistinct` and
    `KotlinExecuteDistinct` are the corrected definitions. */
module Findings {
  import opened Results
  import opened Paths
  import opened FileSystem
  import opened Filters
  import opened Roots
  import opened Walker
  import opened Grouping
  import opened Hashing
  import opened Deletion
  import opened Stages
  import opened Pipeline
  import Scenarios

  /** A directory `outer` whose only entry is the directory `inner`, whose only entry is one file. */
  ghost predicate NestedOneFile(fs: FS, outer: Path, n: string, m: string, content: seq<byte>) {
    && outer in fs && fs[outer] == Dir(Some([n]))
    && outer + [n] in fs && fs[outer + [n]] == Dir(Some([m]))
    && outer + [n, m] in fs && fs[outer + [n, m]] == File(content, true, true, true)
  }

  /** Walking the outer directory and the inner one each reach the single file. */
  lemma NestedWalks(fs: FS, f: NameFilter, outer: Path, n: string, m: string, content: seq<byte>)
    requires NestedOneFile(fs, outer, n, m, content)
    requires NameAccepted(f, m)
    ensures Walk(fs, f, outer + [n]) == [outer + [n, m]]
    ensures Walk(fs, f, outer) == [outer + [n, m]]
  {
    var inner := outer + [n];
    var file := outer + [n, m];
    assert file == Child(inner, m) && inner == Child(outer, n);
    assert inner != outer && file != outer && file != inner;
    assert !IsDir(fs, file) && IsDir(fs, inner) && IsDir(fs, outer);
    assert Walk(fs, f, file) == [file];
    assert Entries(fs, f, inner, [m]) == [file] + Entries(fs, f, inner, []);
    assert Walk(fs, f, inner) == [file];
    assert Entries(fs, f, outer, [n]) == [file] + Entries(fs, f, outer, []);
  }

  /** The counterexample for the older Java version: the roots "inner" then "outer" pass the
      `--root` rule, and the run deletes the file although no other copy of it exists. */
  lemma OlderDeletesOnlyCopy(fs: FS, reg: Registry, outer: Path, n: string, m: string,
                             content: seq<byte>, types: set<string>, alg: string)
    requires NestedOneFile(fs, outer, n, m, content)
    requires SuffixMatch(types, m) && alg in reg
    ensures var cfg := Config(Normalize([outer + [n], outer]), types, alg);
      && cfg.roots == [outer + [n], outer]
      && OlderFiles(fs, cfg) == [outer + [n, m], outer + [n, m]]
      && OlderExecute(fs, reg, cfg).Ok?
      && OlderExecute(fs, reg, cfg).value.elimination.deleted == [outer + [n, m]]
      && outer + [n, m] in fs && outer + [n, m] !in OlderExecute(fs, reg, cfg).value.elimination.after
  {
    var file := outer + [n, m];
    var roots := [outer + [n], outer];
    Scenarios.RootOrderMatters(outer, outer + [n]);
    assert Normalize([outer + [n], outer]) == roots;
    var cfg := Config(roots, types, alg);
    OlderFilesTwice(fs, outer, n, m, content, cfg);
    TwoCopies(SizeOrder(fs, OlderFiles(fs, cfg)), file);
    var hashed := HashedTwice(StreamFirst, fs, reg, alg, file);
    SelfGroupAttempt(JavaRule, fs, hashed, false);
    BackendOnTwice(StreamFirst, JavaRule, fs, reg, alg, file, hashed);
    assert OlderExecute(fs, reg, cfg) == HashAndEliminate(StreamFirst, JavaRule, fs, reg, alg, [file, file], false);
  }

  lemma BackendOnTwice(order: CheckOrder, rule: Rule, fs: FS, reg: Registry, alg: string, file: Path,
                        hashed: seq<(Path, string)>)
    requires HashAll(order, fs, reg, alg, [file, file]) == Ok(hashed)
    ensures HashAndEliminate(order, rule, fs, reg, alg, [file, file], false)
         == Ok(Eliminate(rule, fs, hashed, false))
  {
  }

  /** The counterexample for the Kotlin version: with the roots "outer" and "inner" (no insertion
      rule applies there), the run deletes the file although no other copy of it exists. */
  lemma KotlinDeletesOnlyCopy(fs: FS, reg: Registry, outer: Path, n: string, m: string,
                              content: seq<byte>, types: set<string>, alg: string)
    requires NestedOneFile(fs, outer, n, m, content)
    requires ExtensionMatch(types, m) && alg in reg
    ensures var cfg := Config([outer, outer + [n]], types, alg);
      && KotlinFiles(fs, cfg) == [outer + [n, m], outer + [n, m]]
      && KotlinExecute(fs, reg, cfg).Ok?
      && KotlinExecute(fs, reg, cfg).value.elimination.deleted == [outer + [n, m]]
      && outer + [n, m] in fs && outer + [n, m] !in KotlinExecute(fs, reg, cfg).value.elimination.after
  {
    var file := outer + [n, m];
    var cfg := Config([outer, outer + [n]], types, alg);
    NestedWalks(fs, AnyName, outer, n, m, content);
    WalkRootsTwice(fs, AnyName, outer, outer + [n], file);
    KotlinSelectTwice(fs, types, file);
    TwoCopies(SizeOrder(fs, KotlinFiles(fs, cfg)), file);
    var hashed := HashedTwice(AlgorithmFirst, fs, reg, alg, file);
    SelfGroupAttempt(KotlinRule, fs, hashed, false);
    BackendOnTwice(AlgorithmFirst, KotlinRule, fs, reg, alg, file, hashed);
    assert KotlinExecute(fs, reg, cfg) == HashAndEliminate(AlgorithmFirst, KotlinRule, fs, reg, alg, [file, file], false);
  }

  lemma KotlinSelectTwice(fs: FS, types: set<string>, file: Path)
    requires IsFile(fs, file) && ExtensionMatch(types, Name(file))
    ensures KotlinSelect(fs, types, [file, file]) == [file, file]
  {
    assert [file, file][1..] == [file] && [file][1..] == [];
    assert KotlinSelect(fs, types, [file]) == [file] + KotlinSelect(fs, types, []);
  }

  /** The walk over the roots "inner" then "outer" lists the single file twice. */
  lemma OlderFilesTwice(fs: FS, outer: Path, n: string, m: string, content: seq<byte>, cfg: Config)
    requires NestedOneFile(fs, outer, n, m, content)
    requires SuffixMatch(cfg.fileTypes, m)
    requires cfg.roots == [outer + [n], outer]
    ensures OlderFiles(fs, cfg) == [outer + [n, m], outer + [n, m]]
  {
    var file := outer + [n, m];
    NestedWalks(fs, Suffixes(cfg.fileTypes), outer, n, m, content);
    WalkRootsTwice(fs, Suffixes(cfg.fileTypes), outer + [n], outer, file);
    RegularFilesTwice(fs, file);
  }

  lemma WalkRootsTwice(fs: FS, f: NameFilter, inner: Path, outer: Path, file: Path)
    requires Walk(fs, f, inner) == [file] && Walk(fs, f, outer) == [file]
    ensures WalkRoots(fs, f, [inner, outer]) == [file, file]
  {
    assert [inner, outer][1..] == [outer] && [outer][1..] == [];
    assert WalkRoots(fs, f, [outer]) == Walk(fs, f, outer) + WalkRoots(fs, f, []);
  }

  lemma RegularFilesTwice(fs: FS, file: Path)
    requires IsFile(fs, file)
    ensures RegularFiles(fs, [file, file]) == [file, file]
  {
    assert [file, file][1..] == [file] && [file][1..] == [];
    assert RegularFiles(fs, [file]) == [file] + RegularFiles(fs, []);
  }

  /** Hashing a list that names one readable file twice. */
  lemma HashedTwice(order: CheckOrder, fs: FS, reg: Registry, alg: string, file: Path)
      returns (hashed: seq<(Path, string)>)
    requires Readable(fs, file) && alg in reg
    ensures HashAll(order, fs, reg, alg, [file, file]) == Ok(hashed)
    ensures hashed[0] == hashed[1] && |hashed| == 2 && hashed[0].0 == file
  {
    hashed := HashAll(order, fs, reg, alg, [file, file]).value;
    assert Items(hashed)[0] == file && Items(hashed)[1] == file;
  }

  /** A file hashed twice forms one group with itself, and its second occurrence is deleted. */
  lemma SelfGroupAttempt(rule: Rule, fs: FS, hashed: seq<(Path, string)>, onlyDuplicates: bool)
    requires |hashed| == 2 && hashed[0] == hashed[1]
    requires Removable(fs, hashed[0].0)
    ensures Eliminate(rule, fs, hashed, onlyDuplicates).attempted == [hashed[0].0]
    ensures Eliminate(rule, fs, hashed, onlyDuplicates).elimination.deleted == [hashed[0].0]
  {
    var (file, d) := hashed[0];
    assert hashed[..1] == [(file, d)] && hashed[..1][..0] == [];
    assert GroupBy(hashed[..1]) == Insert([], file, d);
    var groups := GroupBy(hashed);
    assert GroupBy(hashed[..1]) == [Group(d, [file])];
    assert groups == Insert([Group(d, [file])], file, d);
    assert Insert([Group(d, [file])], file, d) == [Group(d, [file] + [file])] + [Group(d, [file])][1..];
    assert [Group(d, [file])][1..] == [];
    assert [file] + [file] == [file, file];
    assert [Group(d, [file, file])] + [] == [Group(d, [file, file])];
    assert groups == [Group(d, [file, file])];
    assert Attempts(groups) == [file];
  }

  lemma TwoCopies(s: seq<Path>, x: Path)
    requires multiset(s) == multiset([x, x])
    ensures s == [x, x]
  {
    assert |s| == 2;
    assert s[0] in multiset(s) && s[1] in multiset(s);
  }
}
