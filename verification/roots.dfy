/** The `--root` insertion rule shared by both Java versions. */
module Roots {
  import opened Paths

  /** The `isChild` predicate: `p`, or some path on its `getParentFile` chain, is already a root. */
  predicate IsChild(roots: seq<Path>, p: Path)
    decreases |p|
  {
    p in roots || match Parent(p) {
      case None => false
      case Some(q) => IsChild(roots, q)
    }
  }

  /** Some root is `p` itself or a lexical ancestor of it. */
  ghost predicate Covered(roots: seq<Path>, p: Path) {
    exists r :: r in roots && r <= p
  }

  /** Walking the parent chain finds a root exactly when some root is a prefix of the path. */
  lemma {:induction false} IsChildCovered(roots: seq<Path>, p: Path)
    ensures IsChild(roots, p) <==> Covered(roots, p)
    decreases |p|
  {
    if p != [] {
      var q := p[..|p| - 1];
      IsChildCovered(roots, q);
      if Covered(roots, p) && p !in roots {
        var r :| r in roots && r <= p;
        assert r != p;
        assert r <= q;
      }
      if Covered(roots, q) {
        var r :| r in roots && r <= q;
        assert r <= p;
      }
    } else {
      if Covered(roots, p) {
        var r :| r in roots && r <= p;
        assert r == [];
      }
    }
  }

  /** The `--root` handler: a candidate is appended unless it, or an ancestor, is already a root. */
  function AddRoot(roots: seq<Path>, c: Path): (r: seq<Path>)
    ensures Covered(roots, c) ==> r == roots
    ensures !Covered(roots, c) ==> r == roots + [c]
  {
    IsChildCovered(roots, c);
    if IsChild(roots, c) then roots else roots + [c]
  }

  /** No accepted root is at or below a root that was accepted before it. */
  ghost predicate NoneBelowEarlier(roots: seq<Path>) {
    forall i, j :: 0 <= i < j < |roots| ==> !(roots[i] <= roots[j])
  }

  /** Every `--root` flag, processed in command-line order. */
  function AddRoots(roots: seq<Path>, cands: seq<Path>): (r: seq<Path>)
    ensures NoneBelowEarlier(roots) ==> NoneBelowEarlier(r)
    ensures |roots| <= |r| && r[..|roots|] == roots
    ensures forall x :: x in r ==> x in roots || x in cands
    ensures forall c :: c in cands ==> Covered(r, c)
    ensures forall x :: x in roots ==> x in r
    decreases |cands|
  {
    if cands == [] then roots
    else
      var next := AddRoot(roots, cands[0]);
      AddRootStep(roots, cands[0]);
      var r := AddRoots(next, cands[1..]);
      assert r[..|next|] == next;
      CoveredGrows(next, r, cands[0]);
      r
  }

  /** One `--root` flag: the roots so far stay a prefix, the candidate is covered afterwards, and
      no accepted root lies at or below an earlier one. */
  lemma AddRootStep(roots: seq<Path>, c: Path)
    ensures var next := AddRoot(roots, c);
      && |roots| <= |next| && next[..|roots|] == roots
      && Covered(next, c)
      && (forall x :: x in roots ==> x in next)
      && (forall x :: x in next ==> x in roots || x == c)
      && (NoneBelowEarlier(roots) ==> NoneBelowEarlier(next))
  {
    var next := AddRoot(roots, c);
    assert next[..|roots|] == roots;
    if !Covered(roots, c) {
      assert c in next && c <= c;
      if NoneBelowEarlier(roots) {
        forall i, j | 0 <= i < j < |next|
          ensures !(next[i] <= next[j])
        {
          if j == |roots| {
            assert next[i] in roots;
          }
        }
      }
    }
  }

  lemma CoveredGrows(a: seq<Path>, b: seq<Path>, p: Path)
    requires forall x :: x in a ==> x in b
    requires Covered(a, p)
    ensures Covered(b, p)
  {
  }

  /** Normalising the candidate roots of one command line, starting from no roots. */
  function Normalize(cands: seq<Path>): (r: seq<Path>)
    ensures NoneBelowEarlier(r)
    ensures forall x :: x in r ==> x in cands
    ensures forall c :: c in cands ==> Covered(r, c)
  {
    AddRoots([], cands)
  }
}
