/** Concrete instances of two rules: the root-order asymmetry of `--root` and the exact matching
    of the name filters. */
module Scenarios {
  import opened Paths
  import opened Filters
  import opened Roots

  /** A root given after one of its ancestors is dropped, but a root given before one of its
      ancestors stays, and the ancestor is added after it: the check only looks upwards. */
  lemma RootOrderMatters(outer: Path, inner: Path)
    requires outer < inner
    ensures Normalize([outer, inner]) == [outer]
    ensures Normalize([inner, outer]) == [inner, outer]
  {
    OuterFirst(outer, inner);
    InnerFirst(outer, inner);
  }

  lemma OuterFirst(outer: Path, inner: Path)
    requires outer < inner
    ensures Normalize([outer, inner]) == [outer]
  {
    assert AddRoot([], outer) == [outer];
    assert AddRoot([outer], inner) == [outer] by {
      assert outer in [outer] && outer <= inner;
    }
    assert [outer, inner][1..] == [inner] && [inner][1..] == [];
    assert AddRoots([outer], [inner]) == AddRoots([outer], []);
  }

  lemma InnerFirst(outer: Path, inner: Path)
    requires outer < inner
    ensures Normalize([inner, outer]) == [inner, outer]
  {
    assert AddRoot([], inner) == [inner];
    assert AddRoot([inner], outer) == [inner, outer] by {
      assert !Covered([inner], outer);
    }
    assert [inner, outer][1..] == [outer] && [outer][1..] == [];
    assert AddRoots([inner], [outer]) == AddRoots([inner, outer], []);
  }

  /** The suffix match is case-sensitive, and the Kotlin extension never carries the dot. */
  lemma ExactMatching()
    ensures !SuffixMatch({".jpg"}, "photo.JPG")
    ensures SuffixMatch({".jpg"}, "photo.jpg")
    ensures Extension("photo.jpg") == "jpg"
    ensures !ExtensionMatch({".jpg"}, "photo.jpg") && ExtensionMatch({"jpg"}, "photo.jpg")
  {
    assert EndsWith("photo.jpg", ".jpg");
    assert !EndsWith("photo.JPG", ".jpg") by {
      assert "photo.JPG"[6] != ".jpg"[1];
    }
    assert "photo.jpg"[..8] == "photo.jp" && "photo.jp"[..7] == "photo.j" && "photo.j"[..6] == "photo.";
    assert LastDot("photo.") == 5;
    assert LastDot("photo.j") == 5;
    assert LastDot("photo.jp") == 5;
    assert LastDot("photo.jpg") == 5;
  }
}
