/** An abstract directory tree: the part of a filesystem the synchronisation
    engine observes. A tree maps each path, relative to the tree's root, to the
    node stored there. The root itself is the empty path; an empty map stands
    for a root that does not exist. The primitive operations are the pure
    counterparts of `os.makedirs`, `shutil.copy2`, `os.remove` and
    `shutil.rmtree`. Their preconditions are conditions under which the engine
    would fail at that step: the OS call itself raises, or (for a copy) the
    fingerprint check just before it does. */
module FileTree {

  newtype Byte = x: int | 0 <= x < 0x100

  type Bytes = seq<Byte>

  /** One path segment (a file or directory name). */
  type Name = string

  type Path = seq<Name>

  /** A content fingerprint as the hasher returns it (a hex string). */
  type Digest = string

  datatype Node = Dir | File(content: Bytes)

  type Tree = map<Path, Node>

  /** No element of `s` occurs twice. */
  predicate Distinct<T(==)>(s: seq<T>) {
    forall i, j | 0 <= i < j < |s| :: s[i] != s[j]
  }

  function Parent(p: Path): Path
    requires p != []
  {
    p[..|p| - 1]
  }

  /** Every path from the root down to `d`, both included. */
  function Prefixes(d: Path): (r: set<Path>)
    ensures forall q | q in r :: q <= d
    ensures forall k | 0 <= k <= |d| :: d[..k] in r
  {
    set k | 0 <= k <= |d| :: d[..k]
  }

  /** Whether `q` lies in the subtree rooted at `d` (`d` included). */
  predicate Beneath(d: Path, q: Path) {
    d <= q
  }

  /** The shape every real directory tree has: the root, if present, is a
      directory, and every proper prefix of a present path is a present
      directory. */
  ghost predicate WellFormed(t: Tree) {
    && ([] in t ==> t[[]].Dir?)
    && forall p, k | p in t && 0 <= k < |p| :: p[..k] in t && t[p[..k]].Dir?
  }

  /** At every path present in both trees the two nodes are of the same kind. */
  ghost predicate KindsAgree(a: Tree, b: Tree) {
    forall p | p in a && p in b :: a[p].Dir? == b[p].Dir?
  }

  /** The directories of `t`. */
  function DirsOf(t: Tree): set<Path> {
    set p | p in t && t[p].Dir?
  }

  /** A non-root key of a well-formed tree has its parent present as a
      directory. */
  lemma ParentPresent(t: Tree, p: Path)
    requires WellFormed(t) && p in t && p != []
    ensures Parent(p) in t && t[Parent(p)].Dir?
  {
    assert p[..|p| - 1] == Parent(p);
  }

  /** A well-formed tree that holds anything holds its root. */
  lemma RootPresent(t: Tree, p: Path)
    requires WellFormed(t) && p in t
    ensures [] in t
  {
    if p != [] {
      assert p[..0] == [];
    }
  }

  /** A well-formed tree without a root holds nothing. */
  lemma RootlessIsEmpty(t: Tree)
    requires WellFormed(t) && [] !in t
    ensures t == map[]
  {
    forall p
      ensures p !in t
    {
      if p != [] {
        assert p[..0] == [];
      }
    }
  }

  /** A path whose parent is present in a well-formed tree has all its proper
      prefixes present. */
  lemma ParentGivesAncestors(t: Tree, d: Path)
    requires WellFormed(t) && d != [] && Parent(d) in t
    ensures forall k | 0 <= k < |d| :: d[..k] in t
  {
    forall k | 0 <= k < |d|
      ensures d[..k] in t
    {
      if k < |d| - 1 {
        assert Parent(d)[..k] == d[..k];
      } else {
        assert d[..k] == Parent(d);
      }
    }
  }

  /** `os.makedirs(d)`: creates `d` and every missing directory above it. It
      raises when `d` exists or when a segment on the way is a file. */
  function MakeDirs(t: Tree, d: Path): (r: Tree)
    requires d !in t
    requires forall k | 0 <= k < |d| && d[..k] in t :: t[d[..k]].Dir?
    ensures d in r && r[d] == Dir
    ensures forall p | p in t :: p in r && r[p] == t[p]
    ensures forall p | p in r && p !in t :: r[p] == Dir && p <= d
    ensures WellFormed(t) ==> WellFormed(r)
    ensures WellFormed(t) && (d == [] || Parent(d) in t) ==> r == t[d := Dir]
  {
    MakeDirsShape(t, d);
    map p | p in t.Keys + Prefixes(d) :: if p in t then t[p] else Dir
  }

  lemma MakeDirsShape(t: Tree, d: Path)
    requires d !in t
    requires forall k | 0 <= k < |d| && d[..k] in t :: t[d[..k]].Dir?
    ensures var r := map p | p in t.Keys + Prefixes(d) :: if p in t then t[p] else Dir;
      && d in r
      && (WellFormed(t) ==> WellFormed(r))
      && (WellFormed(t) && (d == [] || Parent(d) in t) ==> r == t[d := Dir])
  {
    var r := map p | p in t.Keys + Prefixes(d) :: if p in t then t[p] else Dir;
    assert d[..|d|] == d;
    if WellFormed(t) {
      forall p, k | p in r && 0 <= k < |p|
        ensures p[..k] in r && r[p[..k]].Dir?
      {
        if p !in t {
          assert p <= d;
          assert p[..k] == d[..k];
        }
      }
      if d != [] && Parent(d) in t {
        ParentGivesAncestors(t, d);
        forall p | p in Prefixes(d)
          ensures p in t || p == d
        {
          var k :| 0 <= k <= |d| && p == d[..k];
        }
        assert r == t[d := Dir];
      }
    }
  }

  /** `shutil.copy2(source_file, p)`: writes `content` at `p`, replacing a file
      that is already there. It raises when the containing directory is
      missing. A directory at `p` is excluded too, although `copy2` would copy
      into it: at `modules/sync.py:31` the engine fingerprints whatever is at
      `p` first, and reading a directory raises. */
  function CopyFile(t: Tree, p: Path, content: Bytes): (r: Tree)
    requires p != [] && Parent(p) in t && t[Parent(p)].Dir?
    requires p in t ==> t[p].File?
    ensures r.Keys == t.Keys + {p} && r[p] == File(content)
    ensures forall q | q in t && q != p :: r[q] == t[q]
    ensures WellFormed(t) ==> WellFormed(r)
  {
    CopyFileShape(t, p, content);
    t[p := File(content)]
  }

  lemma CopyFileShape(t: Tree, p: Path, content: Bytes)
    requires p != [] && Parent(p) in t && t[Parent(p)].Dir?
    requires p in t ==> t[p].File?
    ensures WellFormed(t) ==> WellFormed(t[p := File(content)])
  {
    var r := t[p := File(content)];
    if WellFormed(t) {
      forall q, k | q in r && 0 <= k < |q|
        ensures q[..k] in r && r[q[..k]].Dir?
      {
        if q == p {
          if k < |p| - 1 {
            assert p[..k] == Parent(p)[..k];
          } else {
            assert p[..k] == Parent(p);
          }
        } else if q[..k] == p {
          assert t[q[..k]].Dir?;
        }
      }
    }
  }

  /** `os.remove(p)`: deletes the file at `p`; it raises when nothing is there
      or when `p` is a directory. */
  function RemoveFile(t: Tree, p: Path): (r: Tree)
    requires p in t && t[p].File?
    ensures r.Keys == t.Keys - {p}
    ensures forall q | q in r :: r[q] == t[q]
    ensures WellFormed(t) ==> WellFormed(r)
  {
    RemoveFileShape(t, p);
    t - {p}
  }

  lemma RemoveFileShape(t: Tree, p: Path)
    requires p in t && t[p].File?
    ensures WellFormed(t) ==> WellFormed(t - {p})
  {
    var r := t - {p};
    if WellFormed(t) {
      forall q, k | q in r && 0 <= k < |q|
        ensures q[..k] in r && r[q[..k]].Dir?
      {
        assert t[q[..k]].Dir?;
      }
    }
  }

  /** `shutil.rmtree(d)`: deletes the directory `d` with everything beneath
      it; it raises when `d` is missing or is not a directory. */
  function RmTree(t: Tree, d: Path): (r: Tree)
    requires d in t && t[d].Dir?
    ensures forall q | q in t :: q in r <==> !Beneath(d, q)
    ensures forall q | q in r :: q in t && r[q] == t[q]
    ensures WellFormed(t) ==> WellFormed(r)
  {
    RmTreeShape(t, d);
    map q | q in t && !Beneath(d, q) :: t[q]
  }

  lemma RmTreeShape(t: Tree, d: Path)
    ensures WellFormed(t) ==> WellFormed(map q | q in t && !Beneath(d, q) :: t[q])
  {
    var r := map q | q in t && !Beneath(d, q) :: t[q];
    if WellFormed(t) {
      forall q, k | q in r && 0 <= k < |q|
        ensures q[..k] in r && r[q[..k]].Dir?
      {
        if Beneath(d, q[..k]) {
          assert Beneath(d, q);
        }
      }
    }
  }
}
