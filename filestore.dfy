/**
 * An abstract file system: regular files (path to content) and directories.
 *
 * A path is the sequence of its components, so `os.path.join(a, b)` is
 * `a + [b]`.  The primitives are the ones the reorganizer calls:
 * `os.path.isdir`, `os.path.exists`, `os.listdir`, `os.makedirs(..., exist_ok=True)`,
 * `shutil.copy2`, `shutil.move` and `open(path, 'a').close()`.
 */
module FileStore {

  type Path = seq<string>
  type Bytes = seq<bv8>
  type Files = map<Path, Bytes>

  /** `p` is present in both stores or in neither, with the same content. */
  predicate SameAt(a: Files, b: Files, p: Path) {
    (p in a <==> p in b) && (p in a ==> a[p] == b[p])
  }

  /** The last component of a path: the name of the entry it denotes. */
  function BaseName(p: Path): string
    requires p != []
  {
    p[|p| - 1]
  }

  /** The names of the files directly inside `dir`. */
  function Listing(fs: Files, dir: Path): (names: set<string>)
    ensures forall x :: x in names <==> dir + [x] in fs
  {
    var r := set q | q in fs && |q| == |dir| + 1 && q[..|dir|] == dir :: BaseName(q);
    assert forall x :: dir + [x] in fs ==> (dir + [x])[..|dir|] == dir && BaseName(dir + [x]) == x;
    assert forall q :: q in fs && |q| == |dir| + 1 && q[..|dir|] == dir ==> q == dir + [BaseName(q)];
    r
  }

  /** The directory a file lies in: its path without the last component. */
  function Parent(p: Path): Path
    requires p != []
  {
    p[..|p| - 1]
  }

  /** Every file lies directly in a directory of the store, as on a real file system. */
  ghost predicate FilesInDirs(fs: Files, ds: set<Path>) {
    forall p :: p in fs ==> p != [] && Parent(p) in ds
  }

  /** The first `i` components of `p`. */
  function Prefix(p: Path, i: nat): Path
    requires i <= |p|
  {
    p[..i]
  }

  /** The directories `os.makedirs(p)` ensures: every non-empty prefix of `p`. */
  function Ancestors(p: Path): (r: set<Path>)
    ensures forall q :: q in r <==> 0 < |q| && q <= p
  {
    var r := set i | 1 <= i <= |p| :: Prefix(p, i);
    assert forall q :: 0 < |q| && q <= p ==> q == Prefix(p, |q|);
    r
  }

  /** `shutil.copy2(from, to)`: `to` now holds the content of `from`, which stays. */
  function Copied(fs: Files, from: Path, to: Path): (r: Files)
    requires from in fs
    ensures r.Keys == fs.Keys + {to}
    ensures r[to] == fs[from]
    ensures forall p :: p != to ==> SameAt(fs, r, p)
  {
    fs[to := fs[from]]
  }

  /** `shutil.move(from, to)`: `to` now holds the content of `from`, which is gone. */
  function Moved(fs: Files, from: Path, to: Path): (r: Files)
    requires from in fs
    ensures r.Keys == fs.Keys - {from} + {to}
    ensures r[to] == fs[from]
    ensures forall p :: p != from && p != to ==> SameAt(fs, r, p)
  {
    (fs - {from})[to := fs[from]]
  }

  /** `open(p, 'a').close()`: creates an empty file, leaves an existing one as it is. */
  function Touched(fs: Files, p: Path): (r: Files)
    ensures r.Keys == fs.Keys + {p}
    ensures r[p] == if p in fs then fs[p] else []
    ensures forall q :: q != p ==> SameAt(fs, r, q)
  {
    if p in fs then fs else fs[p := []]
  }

  class Store {
    var files: Files
    var dirs: set<Path>

    method IsDir(p: Path) returns (b: bool)
      ensures b <==> p in dirs
    {
      b := p in dirs;
    }

    method Exists(p: Path) returns (b: bool)
      ensures b <==> p in files
    {
      b := p in files;
    }

    method ListDir(dir: Path) returns (names: set<string>)
      requires dir in dirs
      ensures forall x :: x in names <==> dir + [x] in files
    {
      names := Listing(files, dir);
    }

    method MakeDirs(p: Path)
      modifies this
      ensures dirs == old(dirs) + Ancestors(p)
      ensures files == old(files)
    {
      dirs := dirs + Ancestors(p);
    }

    method Copy(from: Path, to: Path)
      requires from in files
      modifies this
      ensures files == Copied(old(files), from, to)
      ensures dirs == old(dirs)
    {
      files := Copied(files, from, to);
    }

    method Move(from: Path, to: Path)
      requires from in files
      modifies this
      ensures files == Moved(old(files), from, to)
      ensures dirs == old(dirs)
    {
      files := Moved(files, from, to);
    }

    method Touch(p: Path)
      modifies this
      ensures files == Touched(old(files), p)
      ensures dirs == old(dirs)
    {
      files := Touched(files, p);
    }
  }
}
