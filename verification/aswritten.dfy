/** `mkdirp` exactly as src/lib.rs:14-42 writes it. The parent's result is bound to `created`
    (src/lib.rs:27-28) without looking at it, so when the parent's call fails the retry of the
    target (src/lib.rs:36-40) runs anyway, fails with NotFound because the parent is still
    missing, and that NotFound replaces the parent's error. MkdirP.Mkdirp returns the parent's
    error instead; the two agree everywhere else. */
module AsWritten {
  import opened Wrappers
  import opened Paths
  import opened FileSystem
  import opened MkdirP
  import opened Plan

  function MkdirpAsWritten(fs: Fs, p: Path): (Outcome, Fs)
    decreases |p.segs|
  {
    if p == Empty then (Ok(None), fs)
    else match CreateDir(fs, p)
      case Ok(fs') => (Ok(Some(p)), fs')
      case Err(e) =>
        if e.kind == NotFound then
          match Parent(p)
          case None => (Err(WholeTreeError), fs)
          case Some(q) =>
            var (created, fs') := MkdirpAsWritten(fs, q);
            Retry(fs', p, created)
        else if e.kind == AlreadyExists then (Ok(None), fs)
        else if IsDir(fs, p) then (Ok(None), fs)
        else (Err(e), fs)
  }

  /** The first creation of `p` reported a missing parent and the call for the parent failed. */
  ghost predicate AncestorFailed(fs: Fs, p: Path)
  {
    && p != Empty
    && CreateDir(fs, p) == Err(Os(NotFound))
    && Parent(p).Some?
    && Mkdirp(fs, Parent(p).value).0.Err?
  }

  /** The code as written leaves the same filesystem behind and returns the same result,
      except that a failure in the parent's call comes back as NotFound. */
  lemma {:induction false} AsWrittenHidesAncestorErrors(fs: Fs, p: Path)
    ensures MkdirpAsWritten(fs, p).1 == Mkdirp(fs, p).1
    ensures MkdirpAsWritten(fs, p).0 == if AncestorFailed(fs, p) then Err(Os(NotFound)) else Mkdirp(fs, p).0
    decreases |p.segs|
  {
    if p != Empty && CreateDir(fs, p) == Err(Os(NotFound)) && Parent(p).Some? {
      var q := Parent(p).value;
      AsWrittenHidesAncestorErrors(fs, q);
      var (rq, fsq) := Mkdirp(fs, q);
      if rq.Err? {
        assert p !in fsq.entries;
        assert q !in fsq.entries;
        AddingDirsKeepsNotBelowFile(fs, fsq, p);
        assert CreateDir(fsq, p) == Err(Os(NotFound));
        assert MkdirpAsWritten(fs, p) == (Err(Os(NotFound)), fsq);
      }
    }
  }

  /** Wherever the corrected call succeeds the code as written does exactly the same, so the
      success properties proved of MkdirP.Mkdirp hold of it too. */
  lemma AsWrittenAgreesOnSuccess(fs: Fs, p: Path)
    requires Mkdirp(fs, p).0.Ok?
    ensures MkdirpAsWritten(fs, p) == Mkdirp(fs, p)
  {
    AsWrittenHidesAncestorErrors(fs, p);
  }

  /** A refused ancestor strictly above the target: the code as written reports NotFound
      rather than the permission error, yet keeps the ancestors it created. */
  lemma DeniedAncestorHidden(fs: Fs, p: Path, d: nat, j: nat)
    requires 1 <= d <= j < |p.segs| && IsDir(fs, Ancestor(p, d - 1))
    requires forall i :: d <= i <= |p.segs| ==> Ancestor(p, i) !in fs.entries
    requires forall i :: d <= i < j ==> Ancestor(p, i) !in fs.denied
    requires Ancestor(p, j) in fs.denied
    ensures MkdirpAsWritten(fs, p).0 == Err(Os(NotFound))
    ensures AddsExactly(fs, MkdirpAsWritten(fs, p).1, p, d, j)
  {
    ParentIsAncestor(p);
    var q := Parent(p).value;
    forall i | d - 1 <= i <= |q.segs|
      ensures Ancestor(q, i) == Ancestor(p, i)
    {
      AncestorOfPrefix(q, p, i);
    }
    DeniedAncestorIsReported(fs, q, d, j);
    assert q !in fs.entries;
    assert CreateDir(fs, p) == Err(Os(NotFound));
    assert AncestorFailed(fs, p);
    DeniedAncestorIsReported(fs, p, d, j);
    AsWrittenHidesAncestorErrors(fs, p);
  }

  /** The smallest instance: `a` cannot be created in an existing working directory; asking
      for `a/b` gives NotFound, where the corrected call gives PermissionDenied. */
  lemma DeniedAncestorExample()
    ensures var fs := Fs(map[Empty := Dir], {Path(false, ["a"])});
      var p := Path(false, ["a", "b"]);
      && Mkdirp(fs, p).0 == Err(Os(PermissionDenied))
      && MkdirpAsWritten(fs, p).0 == Err(Os(NotFound))
  {
    var fs := Fs(map[Empty := Dir], {Path(false, ["a"])});
    var p := Path(false, ["a", "b"]);
    assert Ancestor(p, 0) == Empty;
    assert Ancestor(p, 1) == Path(false, ["a"]);
    DeniedAncestorIsReported(fs, p, 1, 1);
    DeniedAncestorHidden(fs, p, 1, 1);
  }

  /** A regular file above the missing part of the path stops the first creation with
      `NotADirectory` (src/lib.rs:25), so the code as written reports it as the corrected call does. */
  lemma FileAncestorAgrees(fs: Fs, p: Path, d: nat)
    requires 1 <= d <= |p.segs| && Ancestor(p, d - 1) in fs.entries && fs.entries[Ancestor(p, d - 1)] == File
    requires forall i :: d <= i <= |p.segs| ==> Ancestor(p, i) !in fs.entries
    ensures MkdirpAsWritten(fs, p) == (Err(Os(NotADirectory)), fs)
  {
    TopMissingIs(fs, p, |p.segs|, d);
    assert CreateDir(fs, p) == Err(Os(NotADirectory));
    FileAncestorIsReported(fs, p, d);
    AsWrittenHidesAncestorErrors(fs, p);
  }

  /** With the root missing, the "failed to create whole tree" error of src/lib.rs:29-34
      reaches the caller only for the root itself; for any deeper absolute path the code as
      written returns NotFound. */
  lemma WholeTreeErrorHidden(fs: Fs, p: Path)
    requires p.absolute && |p.segs| > 0
    requires forall i :: 0 <= i <= |p.segs| ==> Ancestor(p, i) !in fs.entries
    ensures Mkdirp(fs, p) == (Err(WholeTreeError), fs)
    ensures MkdirpAsWritten(fs, p) == (Err(Os(NotFound)), fs)
  {
    RootExhaustion(fs, p);
    AsWrittenHidesAncestorErrors(fs, p);
    ParentIsAncestor(p);
    var q := Parent(p).value;
    forall i | 0 <= i <= |q.segs|
      ensures Ancestor(q, i) == Ancestor(p, i)
    {
      AncestorOfPrefix(q, p, i);
    }
    RootExhaustion(fs, q);
  }
}
