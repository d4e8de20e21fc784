/** `mkdirp` (src/lib.rs): create a directory and every missing ancestor, treating an existing
    target as success and reporting the shallowest directory it created. */
module MkdirP {
  import opened Wrappers
  import opened Paths
  import opened FileSystem

  /** `io::Result<Option<PathBuf>>`. */
  type Outcome = Result<Option<Path>, IoError>

  /** The error returned when the walk up reaches a path without a parent that still cannot be created. */
  const WholeTreeError: IoError := Custom(Other, "failed to create whole tree")

  /** `after` is `before` with some new directories, each an ancestor-or-self of `p` created
      beneath a directory; nothing that existed is changed or removed, and the refused paths
      are the same. */
  ghost predicate GrowsAlong(before: Fs, after: Fs, p: Path)
  {
    && after.denied == before.denied
    && (forall k :: k in before.entries ==> k in after.entries && after.entries[k] == before.entries[k])
    && (forall k :: k in after.entries && k !in before.entries ==> IsPrefix(k, p) && after.entries[k] == Dir)
    && (forall k :: k in after.entries && k !in before.entries ==> Parent(k).Some? && IsDir(after, Parent(k).value))
  }

  /** `q` is the shallowest directory created on the way to `p`: its parent was already a
      directory, it and every ancestor of `p` below it were absent before and are directories
      after, and nothing shallower was added. */
  ghost predicate CreatedFrom(before: Fs, after: Fs, p: Path, q: Path)
  {
    && IsPrefix(q, p)
    && Parent(q).Some? && IsDir(before, Parent(q).value)
    && (forall i :: |q.segs| <= i <= |p.segs| ==> Ancestor(p, i) !in before.entries)
    && (forall i :: |q.segs| <= i <= |p.segs| ==> IsDir(after, Ancestor(p, i)))
    && (forall k :: k in after.entries && k !in before.entries ==> |q.segs| <= |k.segs|)
  }

  /** The retry after the parent has been dealt with (src/lib.rs:36-40): on success, or when the
      target turns out to be there, the parent's result `created` is returned. */
  function Retry(fs: Fs, p: Path, created: Outcome): (Outcome, Fs)
  {
    match CreateDir(fs, p)
    case Ok(fs') => (created, fs')
    case Err(e) =>
      if IsDir(fs, p) then (created, fs)
      else if e.kind == AlreadyExists then (created, fs)
      else (Err(e), fs)
  }

  /** `mkdirp(path)`, returning its result together with the filesystem it leaves behind.
      An error from the parent's call is returned as it is (see AsWritten for the source's
      own handling of that case). */
  function Mkdirp(fs: Fs, p: Path): (out: (Outcome, Fs))
    ensures GrowsAlong(fs, out.1, p)
    ensures out.0 == Ok(None) <==> p == Empty || p in fs.entries
    ensures out.0 == Ok(None) ==> out.1 == fs
    ensures out.0.Ok? ==> p == Empty || p in out.1.entries
    ensures out.0.Err? ==> p !in out.1.entries
    ensures out.0.Ok? && out.0.value.Some? ==> CreatedFrom(fs, out.1, p, out.0.value.value)
    decreases |p.segs|
  {
    if p == Empty then (Ok(None), fs)
    else match CreateDir(fs, p)
      case Ok(fs') => ParentIsAncestor(p); (Ok(Some(p)), fs')
      case Err(e) =>
        if e.kind == NotFound then
          match Parent(p)
          case None => (Err(WholeTreeError), fs)
          case Some(q) =>
            var (created, fs') := Mkdirp(fs, q);
            if created.Err? then (created, fs')
            else RetryExtends(fs, fs', p, q, created); Retry(fs', p, created)
        else if e.kind == AlreadyExists then (Ok(None), fs)
        else if IsDir(fs, p) then (Ok(None), fs)
        else (Err(e), fs)
  }

  /** The retry after a successful call for the parent: the target is added below the parent's
      directories, the shallowest created directory is kept, and an empty report is impossible
      because the parent was missing. */
  lemma RetryExtends(fs: Fs, fs': Fs, p: Path, q: Path, created: Outcome)
    requires Parent(p) == Some(q) && CreateDir(fs, p) == Err(Os(NotFound))
    requires GrowsAlong(fs, fs', q)
    requires created.Ok?
    requires created == Ok(None) ==> fs' == fs
    requires created.value.Some? ==> CreatedFrom(fs, fs', q, created.value.value)
    ensures var (r, fs'') := Retry(fs', p, created);
      && GrowsAlong(fs, fs'', p)
      && r != Ok(None)
      && (r.Ok? ==> p in fs''.entries)
      && (r.Err? ==> p !in fs''.entries)
      && (r.Ok? && r.value.Some? ==> CreatedFrom(fs, fs'', p, r.value.value))
  {
    var (r, fs'') := Retry(fs', p, created);
    assert p !in fs'.entries;
    if r.Ok? && r.value.Some? {
      var c := r.value.value;
      ParentIsAncestor(p);
      forall i | |c.segs| <= i <= |p.segs|
        ensures Ancestor(p, i) !in fs.entries && IsDir(fs'', Ancestor(p, i))
      {
        if i < |p.segs| {
          AncestorOfPrefix(q, p, i);
        }
      }
    }
  }

  /** src/lib.rs:16-18: the empty path is a no-op. */
  lemma EmptyPathIsNoop(fs: Fs)
    ensures Mkdirp(fs, Empty) == (Ok(None), fs)
  {
  }

  /** src/lib.rs:20,23: an existing target is success with nothing created and nothing changed,
      whatever kind of entry it is. */
  lemma ExistingTargetIsNoop(fs: Fs, p: Path)
    requires p in fs.entries
    ensures Mkdirp(fs, p) == (Ok(None), fs)
  {
  }

  /** src/lib.rs:20-21: with the parent a directory, exactly the target is created and reported. */
  lemma ParentPresentCreatesTarget(fs: Fs, p: Path)
    requires p !in fs.entries && p !in fs.denied
    requires Parent(p).Some? && IsDir(fs, Parent(p).value)
    ensures Mkdirp(fs, p) == (Ok(Some(p)), fs.(entries := fs.entries[p := Dir]))
  {
  }

  /** On `Ok(Some(q))` the entries afterwards are exactly the old ones plus the ancestors-or-self
      of `p` from `q` down, all directories; old entries keep their kind. */
  lemma NothingElseChanges(fs: Fs, p: Path)
    requires Mkdirp(fs, p).0.Ok? && Mkdirp(fs, p).0.value.Some?
    ensures var (r, fs') := Mkdirp(fs, p); var q := r.value.value;
      && fs'.denied == fs.denied
      && (forall k :: k in fs'.entries <==> k in fs.entries || (IsPrefix(k, p) && |q.segs| <= |k.segs|))
      && (forall k :: k in fs.entries ==> fs'.entries[k] == fs.entries[k])
      && (forall k :: k in fs'.entries && k !in fs.entries ==> fs'.entries[k] == Dir)
  {
    var (r, fs') := Mkdirp(fs, p);
    var q := r.value.value;
    forall k | IsPrefix(k, p) && |q.segs| <= |k.segs|
      ensures k in fs'.entries
    {
      PrefixIsAncestor(k, p);
      assert IsDir(fs', Ancestor(p, |k.segs|));
    }
  }

  /** src/lib.rs:23 and the `noop` test: after a successful call, calling again reports nothing
      created and changes nothing. */
  lemma SecondCallIsNoop(fs: Fs, p: Path)
    requires Mkdirp(fs, p).0.Ok?
    ensures var fs' := Mkdirp(fs, p).1; Mkdirp(fs', p) == (Ok(None), fs')
  {
  }

  /** Growing a filesystem only beneath directories keeps it well formed. */
  lemma GrowsAlongPreservesWellFormed(fs: Fs, fs': Fs, p: Path)
    requires WellFormed(fs) && GrowsAlong(fs, fs', p)
    ensures WellFormed(fs')
  {
  }

  /** The invariant after success: in a well-formed filesystem, the target exists and every
      ancestor of it is a directory, and the filesystem stays well formed. */
  lemma DeepCreation(fs: Fs, p: Path)
    requires WellFormed(fs) && Mkdirp(fs, p).0.Ok? && p != Empty
    ensures var fs' := Mkdirp(fs, p).1;
      && WellFormed(fs')
      && p in fs'.entries
      && (forall i :: 0 <= i < |p.segs| ==> IsDir(fs', Ancestor(p, i)))
  {
    var fs' := Mkdirp(fs, p).1;
    GrowsAlongPreservesWellFormed(fs, fs', p);
    AncestorsAreDirs(fs', p);
  }
}
