/** The abstract filesystem that stands in for `std::fs`: a map from paths to entry kinds,
    plus the set of paths whose creation the operating system refuses. */
module FileSystem {
  import opened Wrappers
  import opened Paths

  datatype Entry = Dir | File

  /** The `io::ErrorKind`s that single-level creation can report, plus `Other`. */
  datatype ErrorKind = NotFound | AlreadyExists | PermissionDenied | NotADirectory | Other

  /** An `io::Error`: one raised by the operating system, or one built by `io::Error::new`. */
  datatype IoError = Os(kind: ErrorKind) | Custom(kind: ErrorKind, msg: string)

  /** `entries` are the paths that exist; `denied` are the absent paths whose creation fails
      with a permission error. */
  datatype Fs = Fs(entries: map<Path, Entry>, denied: set<Path>)

  /** `Path::is_dir`. */
  predicate IsDir(fs: Fs, p: Path)
  {
    p in fs.entries && fs.entries[p] == Dir
  }

  /** Every entry other than the root and the empty path hangs from a directory. */
  ghost predicate WellFormed(fs: Fs)
  {
    forall k :: k in fs.entries && |k.segs| > 0 ==> IsDir(fs, Parent(k).value)
  }

  /** Walking up from depth `i`, the shallowest depth `d` such that every ancestor of `p` at
      depths `d..i` is absent; the ancestor just above `d`, if any, exists. */
  function TopMissing(fs: Fs, p: Path, i: nat): (d: nat)
    requires i <= |p.segs| && Ancestor(p, i) !in fs.entries
    ensures d <= i
    ensures forall j :: d <= j <= i ==> Ancestor(p, j) !in fs.entries
    ensures d == 0 || Ancestor(p, d - 1) in fs.entries
    decreases i
  {
    if i == 0 || Ancestor(p, i - 1) in fs.entries then i else TopMissing(fs, p, i - 1)
  }

  /** `TopMissing` is the only depth with its three properties. */
  lemma TopMissingIs(fs: Fs, p: Path, i: nat, d: nat)
    requires i <= |p.segs| && Ancestor(p, i) !in fs.entries
    requires d <= i
    requires forall j :: d <= j <= i ==> Ancestor(p, j) !in fs.entries
    requires d == 0 || Ancestor(p, d - 1) in fs.entries
    ensures TopMissing(fs, p, i) == d
  {
  }

  /** The nearest existing proper ancestor of the absent path `p` is a regular file. */
  predicate BelowFile(fs: Fs, p: Path)
    requires p !in fs.entries
  {
    var d := TopMissing(fs, p, |p.segs|);
    d > 0 && fs.entries[Ancestor(p, d - 1)] == File
  }

  /** `fs::create_dir`: single-level creation. It succeeds only when the target is absent,
      its parent is a directory and the target is not refused. Otherwise the path is resolved
      from its nearest existing ancestor: a regular file there gives `NotADirectory`, and a
      missing parent below a directory (or below nothing) gives `NotFound`. */
  function CreateDir(fs: Fs, p: Path): (r: Result<Fs, IoError>)
    ensures r.Ok? <==> p !in fs.entries && Parent(p).Some? && IsDir(fs, Parent(p).value) && p !in fs.denied
    ensures r.Ok? ==> r.value == fs.(entries := fs.entries[p := Dir])
    ensures r == Err(Os(AlreadyExists)) <==> p in fs.entries
    ensures r == Err(Os(NotADirectory)) <==> p !in fs.entries && BelowFile(fs, p)
    ensures r == Err(Os(NotFound)) <==>
      p !in fs.entries && !BelowFile(fs, p) && (Parent(p).None? || Parent(p).value !in fs.entries)
    ensures r.Err? ==> r.error.Os?
  {
    if p in fs.entries then Err(Os(AlreadyExists))
    else if BelowFile(fs, p) then Err(Os(NotADirectory))
    else match Parent(p)
      case None => Err(Os(NotFound))
      case Some(q) =>
        if q !in fs.entries then Err(Os(NotFound))
        else if p in fs.denied then Err(Os(PermissionDenied))
        else Ok(fs.(entries := fs.entries[p := Dir]))
  }

  /** Adding directories, and changing nothing else, never puts a regular file in the way of
      a path that stays absent. */
  lemma AddingDirsKeepsNotBelowFile(fs: Fs, fs': Fs, p: Path)
    requires p !in fs'.entries
    requires forall k :: k in fs.entries ==> k in fs'.entries && fs'.entries[k] == fs.entries[k]
    requires forall k :: k in fs'.entries && k !in fs.entries ==> fs'.entries[k] == Dir
    requires !BelowFile(fs, p)
    ensures !BelowFile(fs', p)
  {
    var d := TopMissing(fs, p, |p.segs|);
    var d' := TopMissing(fs', p, |p.segs|);
    assert d <= d';
  }

  /** Following parents up from an existing entry of a well-formed filesystem meets only directories. */
  lemma {:induction false} AncestorsAreDirs(fs: Fs, k: Path)
    requires WellFormed(fs) && k in fs.entries
    ensures forall i :: 0 <= i < |k.segs| ==> IsDir(fs, Ancestor(k, i))
    decreases |k.segs|
  {
    if |k.segs| > 0 {
      ParentIsAncestor(k);
      var q := Parent(k).value;
      AncestorsAreDirs(fs, q);
      forall i | 0 <= i < |k.segs|
        ensures IsDir(fs, Ancestor(k, i))
      {
        if i < |q.segs| {
          AncestorOfPrefix(q, k, i);
        }
      }
    }
  }

  /** In a well-formed filesystem nothing exists below a missing path. */
  lemma {:induction false} MissingHasNoDescendants(fs: Fs, k: Path, p: Path)
    requires WellFormed(fs) && IsPrefix(k, p) && k !in fs.entries
    ensures p !in fs.entries
    decreases |p.segs|
  {
    if p in fs.entries && |p.segs| > |k.segs| {
      var q := Parent(p).value;
      assert k.segs <= q.segs by {
        assert q.segs == p.segs[..|p.segs| - 1];
      }
      MissingHasNoDescendants(fs, k, q);
    } else if |p.segs| == |k.segs| {
      assert k.segs == p.segs;
    }
  }
}
