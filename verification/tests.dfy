/** The expectations of the repository's own tests (src/lib.rs:44-68), over any filesystem
    satisfying their set-up. */
module SourceTests {
  import opened Wrappers
  import opened Paths
  import opened FileSystem
  import opened MkdirP
  import opened Plan

  /** `dir` extended by one component. */
  function Child(dir: Path, name: string): (c: Path)
    ensures Parent(c) == Some(dir)
  {
    assert (dir.segs + [name])[..|dir.segs|] == dir.segs;
    Path(dir.absolute, dir.segs + [name])
  }

  /** `return_dir` (src/lib.rs:48-60): with `dir` an existing directory and nothing below it,
      `mkdirp(dir/nested-1/nested-2/nested-3)` reports `dir/nested-1` and creates all three. */
  lemma ReturnDir(fs: Fs, dir: Path)
    requires WellFormed(fs) && IsDir(fs, dir)
    requires Child(dir, "nested-1") !in fs.entries
    requires var n1 := Child(dir, "nested-1"); var n2 := Child(n1, "nested-2");
      n1 !in fs.denied && n2 !in fs.denied && Child(n2, "nested-3") !in fs.denied
    ensures var n1 := Child(dir, "nested-1"); var n2 := Child(n1, "nested-2"); var n3 := Child(n2, "nested-3");
      var (r, fs') := Mkdirp(fs, n3);
      r == Ok(Some(n1)) && IsDir(fs', n1) && IsDir(fs', n2) && IsDir(fs', n3)
  {
    var n1 := Child(dir, "nested-1");
    var n2 := Child(n1, "nested-2");
    var n3 := Child(n2, "nested-3");
    var d := |dir.segs| + 1;
    assert n3.segs == dir.segs + ["nested-1", "nested-2", "nested-3"];
    assert Ancestor(n3, d - 1) == dir;
    assert Ancestor(n3, d) == n1;
    assert Ancestor(n3, d + 1) == n2;
    assert Ancestor(n3, d + 2) == n3;
    MissingHasNoDescendants(fs, n1, n2);
    MissingHasNoDescendants(fs, n1, n3);
    forall i | d <= i <= |n3.segs|
      ensures Ancestor(n3, i) !in fs.entries && Ancestor(n3, i) !in fs.denied
    {
      assert i == d || i == d + 1 || i == d + 2;
    }
    ShallowestMissingIsReported(fs, n3, d);
    var fs' := Mkdirp(fs, n3).1;
    assert IsDir(fs', Ancestor(n3, d));
    assert IsDir(fs', Ancestor(n3, d + 1));
    assert IsDir(fs', Ancestor(n3, d + 2));
  }
}
