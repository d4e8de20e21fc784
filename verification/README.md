# mkdirp, modelled in Dafny

`mkdirp(path)` is `mkdir -p` with a report. It creates `path` together with every missing
ancestor, treats an existing target as success, and returns the shallowest directory it
actually created. It returns `None` when it created nothing: the target already existed, or
the path was empty. It is written against two filesystem primitives. The first is `fs::create_dir`, a
single-level create that reports a missing parent (`NotFound`) apart from an existing
target (`AlreadyExists`). The second is `Path::is_dir`.

The model replaces the real filesystem by a value:

- `Paths.Path`: a path is a root flag plus a sequence of opaque components.
  `Paths.Parent` follows `Path::parent`: the root and the empty path have no parent, and the
  parent of `a` is the empty path.
- `FileSystem.Fs`: a map from paths to `Dir | File`, plus the set of absent paths whose
  creation the operating system refuses. That set stands in for permission errors.
- `FileSystem.CreateDir`: `fs::create_dir` on that value. An existing target gives
  `AlreadyExists`. Otherwise the path is resolved from its nearest existing ancestor. A
  regular file there gives `NotADirectory`, whether it is the parent or lies higher up. An
  absent parent below a directory, or below nothing, gives `NotFound`. A refused target gives
  `PermissionDenied`. Otherwise a new directory is added.
- `MkdirP.Mkdirp`: the operation itself. It is a pure recursive function on the depth of the
  path, returning the result and the filesystem left behind. It follows src/lib.rs:16-41
  branch by branch. The only difference is listed under Findings: an error from the
  parent's call is returned as it is.
- `Plan.Expect`: an independent top-down description of the same operation. It finds the
  shallowest missing ancestor (`TopMissing`) and the first refused depth below it
  (`FirstDenied`). `Plan.MkdirpMeetsExpectation` proves that the recursion matches it exactly.
- `AsWritten.MkdirpAsWritten`: the operation exactly as src/lib.rs:14-42 writes it, with lemmas
  saying where it differs from `MkdirP.Mkdirp`.

A `File` target counts as existing: `mkdirp` on a regular file returns `Ok(None)`, because
the entry's kind is never checked. "Deep creation" (`MkdirP.DeepCreation`) is stated for
well-formed filesystems, in which every entry hangs from a directory.

## Model

| member | source | states |
|---|---|---|
| `Paths.Parent` | src/lib.rs:27-35 | `Path::parent`: none exactly for the root and the empty path; otherwise the path one component shorter, with the same root flag |
| `FileSystem.CreateDir` | src/lib.rs:20-25 | single-level create: succeeds iff the target is absent, its parent is a directory and the target is not refused, and then adds exactly the target as a directory; `AlreadyExists` iff the target exists; `NotADirectory` iff the target is absent and its nearest existing ancestor is a regular file; `NotFound` iff the target and its parent are absent, or there is no parent, and no regular file is in the way |
| `MkdirP.Mkdirp` | src/lib.rs:14-42 | nothing existing is changed or removed, and every new entry is a directory on the path created beneath a directory; `Ok(None)` iff the path is empty or already exists, and then nothing changes; on `Ok` the target exists afterwards; on `Err` it does not; on `Ok(Some(q))`, `q` is an ancestor-or-self of the path whose parent was already a directory, and it and every ancestor below it were absent before and are directories after |
| `MkdirP.EmptyPathIsNoop` | src/lib.rs:16-18 | the empty path gives `Ok(None)` and leaves the filesystem as it was |
| `MkdirP.ExistingTargetIsNoop` | src/lib.rs:20-24 | an existing target, directory or regular file, gives `Ok(None)` and changes nothing (the `noop` test, src/lib.rs:63-67, is the directory case) |
| `MkdirP.ParentPresentCreatesTarget` | src/lib.rs:20-21 | with the parent a directory and the target absent and allowed, exactly the target is created and `Ok(Some(path))` returned |
| `MkdirP.NothingElseChanges` | src/lib.rs:27-41 | on `Ok(Some(q))` the entries afterwards are exactly the old ones plus the ancestors-or-self of the path at depth at least that of `q`; old entries keep their kind, new ones are directories, the refused set is unchanged |
| `MkdirP.SecondCallIsNoop` | src/lib.rs:20-23 | after a successful call, a second call on the same path returns `Ok(None)` and changes nothing |
| `MkdirP.DeepCreation` | src/lib.rs:9-13 | on a well-formed filesystem, success leaves the target present, every ancestor a directory, and the filesystem well formed |
| `Plan.MkdirpMeetsExpectation` | src/lib.rs:14-42 | for every filesystem and path, the result equals the top-down expectation, and the entries added are exactly the expected ancestors, as directories |
| `Plan.ShallowestMissingIsReported` | src/lib.rs:27-37 | when the ancestors from depth `d` down are missing and allowed and the one above is a directory, all of them are created and the one at depth `d` is reported |
| `Plan.DeniedAncestorIsReported` | src/lib.rs:36-40 | (corrected; see Findings) a refused ancestor at depth `j` gives `PermissionDenied`; the ancestors above it that were created stay, nothing else is added |
| `Plan.FileAncestorIsReported` | src/lib.rs:20-25 | when the first missing ancestor would go inside a regular file, `NotADirectory` comes back and nothing changes |
| `AsWritten.FileAncestorAgrees` | src/lib.rs:20-25 | the code as written gives the same `NotADirectory`, with nothing changed, when a regular file sits above the missing part of the path, because the first creation already fails that way |
| `Plan.RootExhaustion` | src/lib.rs:29-34 | (corrected; see Findings) when the walk up reaches a missing root, the "failed to create whole tree" error (kind `Other`) comes back and nothing changes |
| `Plan.RelativeWithoutBase` | src/lib.rs:36-40 | a relative path with no existing ancestor, not even the empty path, gives `NotFound` and changes nothing |
| `AsWritten.AsWrittenHidesAncestorErrors` | src/lib.rs:27-40 | the code as written leaves the same filesystem as `MkdirP.Mkdirp`; its result is the same, except that it is `NotFound` whenever the parent's call failed |
| `AsWritten.AsWrittenAgreesOnSuccess` | src/lib.rs:27-41 | wherever `MkdirP.Mkdirp` succeeds, the code as written gives the same result and filesystem |
| `AsWritten.DeniedAncestorHidden` | src/lib.rs:27-40 | with a refused ancestor strictly above the target, the code as written returns `NotFound`, while keeping the ancestors it created |
| `AsWritten.DeniedAncestorExample` | src/lib.rs:36-40 | with `a` refused in an existing working directory, `a/b` gives `PermissionDenied` when corrected and `NotFound` as written |
| `AsWritten.WholeTreeErrorHidden` | src/lib.rs:29-40 | with the root missing, an absolute path below the root gives the whole-tree error when corrected and `NotFound` as written |
| `SourceTests.ReturnDir` | src/lib.rs:48-60 | with `dir` an existing directory of a well-formed filesystem and nothing below it, creating `dir/nested-1/nested-2/nested-3` reports `dir/nested-1` and leaves all three as directories |

## Left out

- Real `fs::create_dir` and `Path::is_dir` calls are replaced by `FileSystem.CreateDir` and a map lookup.
- Races with concurrent creators are not modelled. The `is_dir` fallbacks at src/lib.rs:24 and src/lib.rs:38 exist for them. Both branches are kept, but in a single-threaded model they can never be taken.
- Operating-system errors other than a refused creation (disk full, I/O errors, invalid names) are not modelled. They would take the same path as `PermissionDenied`.
- `OsStr`/`PathBuf` encoding, separators, normalisation, `.` and `..` components, symlinks and path prefixes are not modelled; a component is an opaque string.
- `io::Error` internals are reduced to an error kind, plus the one fixed message of `io::Error::new`.
- The `AsRef<Path>` generic parameter is left out. So are the tests' temporary-directory set-up and removal (src/lib.rs:49-53, 59), and the `noop` test's reliance on the system temporary directory (src/lib.rs:65).
- A report-less variant of the operation is not part of this model.
- `FileSystem.CreateDir`: the path is resolved upward from its nearest existing ancestor, while POSIX resolves it downward from the root. The two agree on well-formed filesystems, where every entry hangs from a directory. On other maps, which stand for no real filesystem, they can differ.
- `MkdirP.DeepCreation`: every ancestor is shown to be a directory only on well-formed filesystems, where every entry hangs from a directory. On an arbitrary map, an ancestor above the first existing one may be absent. Such maps stand for no real filesystem.

## Findings

| source | as written | input that shows it | evidently intended | confidence | as-written member | corrected member |
|---|---|---|---|---|---|---|
| src/lib.rs:27-40 | the parent's `Result` is bound to `created` unexamined. When the parent's call fails, the target is retried anyway, fails with `NotFound`, and that error is returned | working directory exists, `a` may not be created, `mkdirp("a/b")`: returns `NotFound` | return the parent's error (`mkdirp(p)?`): `PermissionDenied` | high; not executed | `AsWritten.DeniedAncestorHidden` | `Plan.DeniedAncestorIsReported` |
| src/lib.rs:29-34 | the "failed to create whole tree" error is replaced by `NotFound` on the way back down, so it is seen only when the target is the root itself | root missing, `mkdirp("/a")`: returns `NotFound` | return the whole-tree error | medium; not executed | `AsWritten.WholeTreeErrorHidden` | `Plan.RootExhaustion` |
