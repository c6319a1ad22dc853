/** Deleting the attempted files, one outcome per file, as a transition on the filesystem value. */
module Deletion {
  import opened Paths
  import opened FileSystem
  import opened Grouping

  /** Java `delete(File)`: `Files.deleteIfExists`, with an `IOException` caught and read as false.
      The answer comes first, the filesystem after the call second. */
  function DeleteIfExists(fs: FS, p: Path): (FS, bool)
  {
    if p !in fs then (fs, false)
    else if Removable(fs, p) then (fs - {p}, true)
    else (fs, false)
  }

  /** Kotlin `File.delete()`: true when the file was removed, false on any failure. */
  function FileDelete(fs: FS, p: Path): (FS, bool)
  {
    if Removable(fs, p) then (fs - {p}, true) else (fs, false)
  }

  /** Kotlin `it.exists() && it.delete()`: a missing file is never handed to `delete`. */
  function ExistsAndDelete(fs: FS, p: Path): (FS, bool)
  {
    if !Exists(fs, p) then (fs, false) else FileDelete(fs, p)
  }

  /** The two per-file rules give the same answer and the same filesystem: true exactly when
      the file existed and was removed, and then it alone is gone. */
  lemma DeleteRulesAgree(fs: FS, p: Path)
    ensures DeleteIfExists(fs, p) == ExistsAndDelete(fs, p)
    ensures DeleteIfExists(fs, p).1 <==> p in fs && Removable(fs, p)
    ensures DeleteIfExists(fs, p).0 == if DeleteIfExists(fs, p).1 then fs - {p} else fs
  {
  }

  datatype Rule = JavaRule | KotlinRule

  function Delete(rule: Rule, fs: FS, p: Path): (FS, bool)
  {
    match rule
    case JavaRule => DeleteIfExists(fs, p)
    case KotlinRule => ExistsAndDelete(fs, p)
  }

  /** The `groupingBy(this::delete)` buckets and the filesystem once every attempt was made. */
  datatype Elimination = Elimination(deleted: seq<Path>, failed: seq<Path>, after: FS)

  /** What attempting `ps` in order on `fs` amounts to: every attempt lands in exactly one bucket,
      the removable ones are deleted (each once), they alone disappear, and none is left removable. */
  ghost predicate Accounts(fs: FS, ps: seq<Path>, e: Elimination) {
    && multiset(e.deleted) + multiset(e.failed) == multiset(ps)
    && (forall q :: q in e.deleted <==> q in ps && Removable(fs, q))
    && Distinct(e.deleted)
    && (forall q :: q in e.after <==> q in fs && q !in e.deleted)
    && (forall q :: q in e.after ==> e.after[q] == fs[q])
    && (forall q :: q in ps ==> !Removable(e.after, q))
  }

  /** Every attempt in order; a failure is recorded and the next file is tried. */
  function DeleteAll(rule: Rule, fs: FS, ps: seq<Path>): (e: Elimination)
    ensures multiset(e.deleted) + multiset(e.failed) == multiset(ps)
    ensures forall q :: q in e.deleted <==> q in ps && Removable(fs, q)
    ensures Distinct(e.deleted)
    ensures forall q :: q in e.after <==> q in fs && q !in e.deleted
    ensures forall q :: q in e.after ==> e.after[q] == fs[q]
    ensures forall q :: q in ps ==> !Removable(e.after, q)
  {
    if ps == [] then Elimination([], [], fs)
    else
      var p := ps[0];
      var (fs1, ok) := Delete(rule, fs, p);
      var rest := DeleteAll(rule, fs1, ps[1..]);
      var e := if ok then Elimination([p] + rest.deleted, rest.failed, rest.after)
               else Elimination(rest.deleted, [p] + rest.failed, rest.after);
      DeleteStep(rule, fs, ps, rest);
      e
  }

  /** One attempt followed by the attempts on the rest, starting from the filesystem it left. */
  lemma DeleteStep(rule: Rule, fs: FS, ps: seq<Path>, rest: Elimination)
    requires ps != []
    requires Accounts(Delete(rule, fs, ps[0]).0, ps[1..], rest)
    ensures var p := ps[0];
      Accounts(fs, ps, if Delete(rule, fs, p).1 then Elimination([p] + rest.deleted, rest.failed, rest.after)
                       else Elimination(rest.deleted, [p] + rest.failed, rest.after))
  {
    var p := ps[0];
    DeleteRulesAgree(fs, p);
    if Delete(rule, fs, p).1 {
      RemovedStep(fs, p, ps[1..], rest);
    } else {
      KeptStep(fs, p, ps[1..], rest);
    }
    assert [p] + ps[1..] == ps;
  }

  lemma RemovedStep(fs: FS, p: Path, ps: seq<Path>, rest: Elimination)
    requires p in fs && Removable(fs, p)
    requires Accounts(fs - {p}, ps, rest)
    ensures Accounts(fs, [p] + ps, Elimination([p] + rest.deleted, rest.failed, rest.after))
  {
    DistinctConcat([p], rest.deleted);
    assert forall q :: q in [p] + ps <==> q == p || q in ps;
  }

  lemma KeptStep(fs: FS, p: Path, ps: seq<Path>, rest: Elimination)
    requires !(p in fs && Removable(fs, p))
    requires Accounts(fs, ps, rest)
    ensures Accounts(fs, [p] + ps, Elimination(rest.deleted, [p] + rest.failed, rest.after))
  {
    assert forall q :: q in [p] + ps <==> q == p || q in ps;
  }

  /** Running the elimination again over the same attempts deletes nothing and changes nothing:
      every attempted file is by then gone or could not be removed the first time either. */
  lemma {:induction false} DeleteAllAgain(rule: Rule, fs: FS, ps: seq<Path>)
    ensures var e := DeleteAll(rule, fs, ps);
      DeleteAll(rule, e.after, ps) == Elimination([], ps, e.after)
  {
    NothingRemovable(rule, DeleteAll(rule, fs, ps).after, ps);
  }

  lemma {:induction false} NothingRemovable(rule: Rule, fs: FS, ps: seq<Path>)
    requires forall q :: q in ps ==> !Removable(fs, q)
    ensures DeleteAll(rule, fs, ps) == Elimination([], ps, fs)
  {
    if ps != [] {
      var p := ps[0];
      assert p in ps;
      DeleteRulesAgree(fs, p);
      assert Delete(rule, fs, p) == (fs, false);
      assert forall q :: q in ps[1..] ==> q in ps;
      NothingRemovable(rule, fs, ps[1..]);
      assert [p] + ps[1..] == ps;
    }
  }
}
