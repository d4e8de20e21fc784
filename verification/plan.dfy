/** A top-down description of what `mkdirp` does, independent of its recursion: find the
    shallowest missing ancestor, then create directories from there towards the target until
    one creation is refused. The lemmas show the recursive `Mkdirp` follows it exactly. */
module Plan {
  import opened Wrappers
  import opened Paths
  import opened FileSystem
  import opened MkdirP

  /** The first depth from `lo` on whose ancestor of `p` is refused, or `|p.segs| + 1` if none is. */
  function FirstDenied(fs: Fs, p: Path, lo: nat): (j: nat)
    requires lo <= |p.segs| + 1
    ensures lo <= j <= |p.segs| + 1
    ensures forall i :: lo <= i < j ==> Ancestor(p, i) !in fs.denied
    ensures j <= |p.segs| ==> Ancestor(p, j) in fs.denied
    decreases |p.segs| + 1 - lo
  {
    if lo > |p.segs| then lo
    else if Ancestor(p, lo) in fs.denied then lo
    else FirstDenied(fs, p, lo + 1)
  }

  /** The expected outcome of `mkdirp(p)`: its result, and the depths `lo..hi - 1` of the
      ancestors of `p` that it creates. */
  datatype Expected = Expected(result: Outcome, lo: nat, hi: nat)

  function Expect(fs: Fs, p: Path): (x: Expected)
    ensures x.lo <= x.hi <= |p.segs| + 1
    ensures x.lo < x.hi ==> 1 <= x.lo && IsDir(fs, Ancestor(p, x.lo - 1))
    ensures forall i :: x.lo <= i < x.hi ==> Ancestor(p, i) !in fs.entries && Ancestor(p, i) !in fs.denied
    ensures x.result.Ok? <==> x.hi == |p.segs| + 1 || p == Empty || p in fs.entries
  {
    if p == Empty || p in fs.entries then Expected(Ok(None), 0, 0)
    else
      var d := TopMissing(fs, p, |p.segs|);
      if d == 0 then
        Expected(if p.absolute then Err(WholeTreeError) else Err(Os(NotFound)), 0, 0)
      else if fs.entries[Ancestor(p, d - 1)] == File then
        Expected(Err(Os(NotADirectory)), d, d)
      else
        var j := FirstDenied(fs, p, d);
        if j > |p.segs| then Expected(Ok(Some(Ancestor(p, d))), d, j)
        else Expected(Err(Os(PermissionDenied)), d, j)
  }

  /** `after` is `before` plus directories at exactly the ancestors of `p` at depths `lo..hi - 1`. */
  ghost predicate AddsExactly(before: Fs, after: Fs, p: Path, lo: nat, hi: nat)
  {
    && hi <= |p.segs| + 1
    && after.denied == before.denied
    && (forall k :: k in before.entries ==> k in after.entries && after.entries[k] == before.entries[k])
    && (forall k :: k in after.entries && k !in before.entries ==> IsPrefix(k, p) && lo <= |k.segs| < hi)
    && (forall i :: lo <= i < hi && i <= |p.segs| ==> IsDir(after, Ancestor(p, i)))
  }

  /** The ancestors of an ancestor `q` of `p` are those of `p`, so the walk up agrees. */
  lemma {:induction false} TopMissingOfPrefix(fs: Fs, q: Path, p: Path, i: nat)
    requires IsPrefix(q, p) && i <= |q.segs| && Ancestor(p, i) !in fs.entries
    ensures Ancestor(q, i) == Ancestor(p, i)
    ensures TopMissing(fs, q, i) == TopMissing(fs, p, i)
    decreases i
  {
    AncestorOfPrefix(q, p, i);
    if i > 0 {
      AncestorOfPrefix(q, p, i - 1);
      if Ancestor(p, i - 1) !in fs.entries {
        TopMissingOfPrefix(fs, q, p, i - 1);
      }
    }
  }

  /** `FirstDenied` is the only depth with its three properties. */
  lemma FirstDeniedIs(fs: Fs, p: Path, lo: nat, j: nat)
    requires lo <= j <= |p.segs| + 1
    requires forall i :: lo <= i < j ==> Ancestor(p, i) !in fs.denied
    requires j <= |p.segs| ==> Ancestor(p, j) in fs.denied
    ensures FirstDenied(fs, p, lo) == j
  {
  }

  /** The case where the parent exists: one single-level creation decides everything. */
  lemma ParentPresentMeetsExpectation(fs: Fs, p: Path)
    requires p !in fs.entries && |p.segs| > 0 && Parent(p).value in fs.entries
    ensures var (r, fs') := Mkdirp(fs, p); var x := Expect(fs, p);
      r == x.result && AddsExactly(fs, fs', p, x.lo, x.hi)
  {
    ParentIsAncestor(p);
    var q := Parent(p).value;
    assert TopMissing(fs, p, |p.segs|) == |p.segs|;
    if fs.entries[q] == Dir && p !in fs.denied {
      FirstDeniedIs(fs, p, |p.segs|, |p.segs| + 1);
    } else if fs.entries[q] == Dir {
      FirstDeniedIs(fs, p, |p.segs|, |p.segs|);
    }
  }

  /** Directories added along an ancestor `q` of `p` are added along `p`. */
  lemma AddsExactlyLift(before: Fs, after: Fs, q: Path, p: Path, lo: nat, hi: nat)
    requires IsPrefix(q, p) && hi <= |q.segs| + 1
    requires AddsExactly(before, after, q, lo, hi)
    ensures AddsExactly(before, after, p, lo, hi)
  {
    forall i | lo <= i < hi && i <= |p.segs|
      ensures IsDir(after, Ancestor(p, i))
    {
      AncestorOfPrefix(q, p, i);
    }
  }

  /** When the parent `q` of `p` is missing too, the expectation for `p` is that for `q`, unless
      that one succeeds: then `p` is created as well, or refused. */
  lemma ExpectBelowMissingParent(fs: Fs, p: Path)
    requires p !in fs.entries && |p.segs| > 0
    requires Parent(p).value !in fs.entries && Parent(p).value != Empty
    ensures var xq := Expect(fs, Parent(p).value);
      Expect(fs, p) ==
        if xq.result.Err? then xq
        else if p in fs.denied then Expected(Err(Os(PermissionDenied)), xq.lo, |p.segs|)
        else Expected(Ok(xq.result.value), xq.lo, |p.segs| + 1)
  {
    ParentIsAncestor(p);
    var q := Parent(p).value;
    var n := |q.segs|;
    var d := TopMissing(fs, q, n);
    TopMissingOfPrefix(fs, q, p, n);
    assert TopMissing(fs, p, |p.segs|) == d;
    forall i: nat | i <= n
      ensures Ancestor(q, i) == Ancestor(p, i)
    {
      AncestorOfPrefix(q, p, i);
    }
    if d > 0 && fs.entries[Ancestor(p, d - 1)] == Dir {
      var jq := FirstDenied(fs, q, d);
      if jq <= n {
        FirstDeniedIs(fs, p, d, jq);
      } else if p in fs.denied {
        FirstDeniedIs(fs, p, d, |p.segs|);
      } else {
        FirstDeniedIs(fs, p, d, |p.segs| + 1);
      }
    }
  }

  /** The case where the parent is absent too: the parent's own expectation, carried one level down. */
  lemma ParentMissingMeetsExpectation(fs: Fs, p: Path)
    requires p !in fs.entries && |p.segs| > 0 && !BelowFile(fs, p)
    requires Parent(p).value !in fs.entries && Parent(p).value != Empty
    requires var q := Parent(p).value; var (rq, fsq) := Mkdirp(fs, q); var xq := Expect(fs, q);
      rq == xq.result && AddsExactly(fs, fsq, q, xq.lo, xq.hi)
    ensures var (r, fs') := Mkdirp(fs, p); var x := Expect(fs, p);
      r == x.result && AddsExactly(fs, fs', p, x.lo, x.hi)
  {
    ParentIsAncestor(p);
    var q := Parent(p).value;
    var (rq, fsq) := Mkdirp(fs, q);
    var xq := Expect(fs, q);
    assert CreateDir(fs, p) == Err(Os(NotFound));
    assert Mkdirp(fs, p) == if rq.Err? then (rq, fsq) else Retry(fsq, p, rq);
    ExpectBelowMissingParent(fs, p);
    AddsExactlyLift(fs, fsq, q, p, xq.lo, xq.hi);
    if rq.Ok? {
      assert xq.hi == |p.segs|;
      assert IsDir(fsq, Ancestor(q, |q.segs|));
      assert p !in fsq.entries;
    }
  }

  /** The recursive `Mkdirp` follows the top-down description: same result, and exactly the
      planned ancestors are added, as directories. */
  lemma {:induction false} MkdirpMeetsExpectation(fs: Fs, p: Path)
    ensures var (r, fs') := Mkdirp(fs, p); var x := Expect(fs, p);
      r == x.result && AddsExactly(fs, fs', p, x.lo, x.hi)
    decreases |p.segs|
  {
    if p == Empty || p in fs.entries {
      assert Mkdirp(fs, p) == (Ok(None), fs);
    } else if |p.segs| == 0 {
      assert TopMissing(fs, p, 0) == 0;
    } else if BelowFile(fs, p) {
      assert Mkdirp(fs, p) == (Err(Os(NotADirectory)), fs);
    } else if Parent(p).value in fs.entries {
      ParentPresentMeetsExpectation(fs, p);
    } else if Parent(p).value == Empty {
      ParentIsAncestor(p);
      assert TopMissing(fs, p, 1) == 0;
    } else {
      MkdirpMeetsExpectation(fs, Parent(p).value);
      ParentMissingMeetsExpectation(fs, p);
    }
  }

  /** Adding the empty range of depths changes nothing. */
  lemma AddsNothing(before: Fs, after: Fs, p: Path, lo: nat)
    requires AddsExactly(before, after, p, lo, lo)
    ensures after == before
  {
    assert after.entries.Keys == before.entries.Keys;
    assert after.entries == before.entries;
  }

  /** Deep creation (the return_dir test, src/lib.rs:48-60): when the ancestors of `p` from
      depth `d` down are missing, none is refused and the one above is a directory, all of
      them are created and the one at depth `d` is reported. */
  lemma ShallowestMissingIsReported(fs: Fs, p: Path, d: nat)
    requires 1 <= d <= |p.segs| && IsDir(fs, Ancestor(p, d - 1))
    requires forall i :: d <= i <= |p.segs| ==> Ancestor(p, i) !in fs.entries && Ancestor(p, i) !in fs.denied
    ensures Mkdirp(fs, p).0 == Ok(Some(Ancestor(p, d)))
    ensures AddsExactly(fs, Mkdirp(fs, p).1, p, d, |p.segs| + 1)
  {
    TopMissingIs(fs, p, |p.segs|, d);
    FirstDeniedIs(fs, p, d, |p.segs| + 1);
    MkdirpMeetsExpectation(fs, p);
  }

  /** src/lib.rs:25,40 (with the parent's error returned): a refused creation at depth `j`
      on the way down is reported as the permission error, and the ancestors created above
      it stay in place. */
  lemma DeniedAncestorIsReported(fs: Fs, p: Path, d: nat, j: nat)
    requires 1 <= d <= j <= |p.segs| && IsDir(fs, Ancestor(p, d - 1))
    requires forall i :: d <= i <= |p.segs| ==> Ancestor(p, i) !in fs.entries
    requires forall i :: d <= i < j ==> Ancestor(p, i) !in fs.denied
    requires Ancestor(p, j) in fs.denied
    ensures Mkdirp(fs, p).0 == Err(Os(PermissionDenied))
    ensures AddsExactly(fs, Mkdirp(fs, p).1, p, d, j)
  {
    TopMissingIs(fs, p, |p.segs|, d);
    FirstDeniedIs(fs, p, d, j);
    MkdirpMeetsExpectation(fs, p);
  }

  /** src/lib.rs:25,40: when the shallowest missing ancestor would have to be created inside
      a regular file, that error comes back and nothing is created. */
  lemma FileAncestorIsReported(fs: Fs, p: Path, d: nat)
    requires 1 <= d <= |p.segs| && Ancestor(p, d - 1) in fs.entries && fs.entries[Ancestor(p, d - 1)] == File
    requires forall i :: d <= i <= |p.segs| ==> Ancestor(p, i) !in fs.entries
    ensures Mkdirp(fs, p) == (Err(Os(NotADirectory)), fs)
  {
    TopMissingIs(fs, p, |p.segs|, d);
    MkdirpMeetsExpectation(fs, p);
    AddsNothing(fs, Mkdirp(fs, p).1, p, d);
  }

  /** src/lib.rs:29-34: when the walk up reaches the root and the root is missing too, the
      "failed to create whole tree" error comes back and nothing is created. */
  lemma RootExhaustion(fs: Fs, p: Path)
    requires p.absolute
    requires forall i :: 0 <= i <= |p.segs| ==> Ancestor(p, i) !in fs.entries
    ensures Mkdirp(fs, p) == (Err(WholeTreeError), fs)
  {
    TopMissingIs(fs, p, |p.segs|, 0);
    MkdirpMeetsExpectation(fs, p);
    AddsNothing(fs, Mkdirp(fs, p).1, p, 0);
  }

  /** src/lib.rs:16-18,40: a relative path none of whose ancestors exist, not even the empty
      path, fails with NotFound from the last retry and creates nothing. */
  lemma RelativeWithoutBase(fs: Fs, p: Path)
    requires !p.absolute && p != Empty
    requires forall i :: 0 <= i <= |p.segs| ==> Ancestor(p, i) !in fs.entries
    ensures Mkdirp(fs, p) == (Err(Os(NotFound)), fs)
  {
    TopMissingIs(fs, p, |p.segs|, 0);
    MkdirpMeetsExpectation(fs, p);
    AddsNothing(fs, Mkdirp(fs, p).1, p, 0);
  }
}
