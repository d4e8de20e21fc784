/** Paths as sequences of opaque components, with the ancestor relation `Path::parent` induces. */
module Paths {
  import opened Wrappers

  /** A path: whether it starts at the filesystem root, and its components. The root is
      `Path(true, [])`; `Path::new("")` is `Path(false, [])`. */
  datatype Path = Path(absolute: bool, segs: seq<string>)

  /** The empty relative path, `Path::new("")`. */
  const Empty: Path := Path(false, [])

  /** `q` is an ancestor of `p` or `p` itself. */
  predicate IsPrefix(q: Path, p: Path)
  {
    q.absolute == p.absolute && q.segs <= p.segs
  }

  /** `Path::parent`: the path without its last component. The root and the empty path have
      no parent; the parent of a one-component relative path is the empty path. */
  function Parent(p: Path): (r: Option<Path>)
    ensures r.None? <==> |p.segs| == 0
    ensures r.Some? ==> IsPrefix(r.value, p) && |r.value.segs| + 1 == |p.segs|
  {
    if |p.segs| == 0 then None else Some(Path(p.absolute, p.segs[..|p.segs| - 1]))
  }

  /** The ancestor-or-self of `p` that has exactly `i` components. */
  function Ancestor(p: Path, i: nat): (a: Path)
    requires i <= |p.segs|
    ensures IsPrefix(a, p) && |a.segs| == i
    ensures i == |p.segs| ==> a == p
  {
    assert p.segs[..|p.segs|] == p.segs;
    Path(p.absolute, p.segs[..i])
  }

  /** A path is determined by its length among the ancestors of a given path. */
  lemma PrefixIsAncestor(k: Path, p: Path)
    requires IsPrefix(k, p)
    ensures |k.segs| <= |p.segs| && k == Ancestor(p, |k.segs|)
  {
  }

  /** The ancestors of an ancestor are ancestors of the descendant, at the same depth. */
  lemma AncestorOfPrefix(q: Path, p: Path, i: nat)
    requires IsPrefix(q, p) && i <= |q.segs|
    ensures Ancestor(q, i) == Ancestor(p, i)
  {
    assert q.segs[..i] == p.segs[..i];
  }

  /** The parent of a non-empty path is its ancestor one level up, and the path is its own
      deepest ancestor. */
  lemma ParentIsAncestor(p: Path)
    requires |p.segs| > 0
    ensures Parent(p) == Some(Ancestor(p, |p.segs| - 1))
    ensures Ancestor(p, |p.segs|) == p
  {
    assert p.segs[..|p.segs|] == p.segs;
  }
}
