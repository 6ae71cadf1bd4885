/** The part of `os.walk` the engine relies on: a top-down enumeration of the
    directories of a tree, each with the names of the files directly inside it.
    The order in which the OS lists entries is not something the engine
    controls, so it is an input: a listing order over paths that puts every
    directory before the paths beneath it. */
module Walking {
  import opened FileTree

  /** One item of a walk: a directory and the names of the files directly in
      it (the sub-directory names `os.walk` also yields are unused). */
  datatype WalkEntry = WalkEntry(root: Path, files: seq<Name>)

  /** The directories a walk visits. */
  function Roots(w: seq<WalkEntry>): set<Path> {
    set i | 0 <= i < |w| :: w[i].root
  }

  /** The paths one walk entry stands for: its directory and its files. */
  function EntryPaths(e: WalkEntry): set<Path> {
    {e.root} + FilePaths(e.root, e.files)
  }

  /** Every path a walk reaches: each visited directory and each listed file. */
  function Covered(w: seq<WalkEntry>): set<Path> {
    Roots(w) + set i, f | 0 <= i < |w| && f in w[i].files :: w[i].root + [f]
  }

  lemma RootsSnoc(w: seq<WalkEntry>)
    requires w != []
    ensures Roots(w) == Roots(w[..|w| - 1]) + {w[|w| - 1].root}
  {
    var w' := w[..|w| - 1];
    forall q | q in Roots(w)
      ensures q in Roots(w') + {w[|w| - 1].root}
    {
      var i :| 0 <= i < |w| && w[i].root == q;
      if i < |w| - 1 {
        assert w'[i] == w[i];
      }
    }
    forall q | q in Roots(w')
      ensures q in Roots(w)
    {
      var i :| 0 <= i < |w'| && w'[i].root == q;
      assert w[i] == w'[i];
    }
  }

  lemma CoveredSnoc(w: seq<WalkEntry>)
    requires w != []
    ensures Covered(w) == Covered(w[..|w| - 1]) + EntryPaths(w[|w| - 1])
  {
    var n := |w| - 1;
    var w' := w[..n];
    RootsSnoc(w);
    forall q | q in Covered(w)
      ensures q in Covered(w') + EntryPaths(w[n])
    {
      if q !in Roots(w) {
        var i, f :| 0 <= i < |w| && f in w[i].files && q == w[i].root + [f];
        if i < n {
          assert w'[i] == w[i];
        }
      }
    }
    forall q | q in Covered(w')
      ensures q in Covered(w)
    {
      if q !in Roots(w') {
        var i, f :| 0 <= i < |w'| && f in w'[i].files && q == w'[i].root + [f];
        assert w[i] == w'[i];
      }
    }
  }

  /** The paths of the files named `files` in directory `d`. */
  function FilePaths(d: Path, files: seq<Name>): set<Path> {
    set f | f in files :: d + [f]
  }

  /** Appending a name to a duplicate-free list adds one fresh path. */
  lemma FilePathsSnoc(d: Path, files: seq<Name>)
    requires files != [] && Distinct(files)
    ensures var n := |files| - 1;
      && Parent(d + [files[n]]) == d
      && FilePaths(d, files) == FilePaths(d, files[..n]) + {d + [files[n]]}
      && d + [files[n]] !in FilePaths(d, files[..n])
  {
    var n := |files| - 1;
    var p := d + [files[n]];
    assert files == files[..n] + [files[n]];
    forall f | f in files[..n]
      ensures d + [f] != p
    {
      var i :| 0 <= i < n && files[..n][i] == f;
      assert files[i] == f && f != files[n];
      assert (d + [f])[|d|] == f && p[|d|] == files[n];
    }
  }

  /** `files` lists, once each, exactly the names of the files directly in `d`. */
  ghost predicate ListsFiles(t: Tree, d: Path, files: seq<Name>) {
    && Distinct(files)
    && forall f :: f in files <==> d + [f] in t && t[d + [f]].File?
  }

  /** Every directory comes after its parent. */
  ghost predicate TopDown(w: seq<WalkEntry>) {
    forall i | 0 <= i < |w| && w[i].root != [] :: Parent(w[i].root) in Roots(w[..i])
  }

  /** In a top-down walk the parent of every visited directory was visited. */
  lemma RootsParentClosed(w: seq<WalkEntry>)
    requires TopDown(w)
    ensures forall r | r in Roots(w) && r != [] :: Parent(r) in Roots(w)
  {
    forall r | r in Roots(w) && r != []
      ensures Parent(r) in Roots(w)
    {
      var i :| 0 <= i < |w| && w[i].root == r;
      var m :| 0 <= m < i && w[..i][m].root == Parent(r);
      assert w[m] == w[..i][m];
    }
  }

  /** `w` is a beginning of a top-down `os.walk` of `t`: directories of `t`,
      none twice, parents before children, each with its files listed. */
  ghost predicate PartialWalk(t: Tree, w: seq<WalkEntry>) {
    && Roots(w) <= DirsOf(t)
    && (forall i, j | 0 <= i < j < |w| :: w[i].root != w[j].root)
    && TopDown(w)
    && (forall i | 0 <= i < |w| :: ListsFiles(t, w[i].root, w[i].files))
  }

  /** `w` is what a top-down `os.walk` of `t` yields: every directory of `t`
      exactly once, parents before children, each with its files listed. */
  ghost predicate IsWalk(t: Tree, w: seq<WalkEntry>) {
    PartialWalk(t, w) && DirsOf(t) <= Roots(w)
  }

  /** Dropping the last entry of a partial walk leaves a partial walk. */
  lemma PartialWalkPrefix(t: Tree, w: seq<WalkEntry>)
    requires PartialWalk(t, w) && w != []
    ensures PartialWalk(t, w[..|w| - 1])
  {
    var w' := w[..|w| - 1];
    RootsSnoc(w);
    forall i | 0 <= i < |w'| && w'[i].root != []
      ensures Parent(w'[i].root) in Roots(w'[..i])
    {
      assert w'[..i] == w[..i];
    }
  }

  /** In a top-down walk every proper prefix of a directory was visited
      before it. */
  lemma AncestorsVisitedEarlier(w: seq<WalkEntry>, i: nat)
    requires TopDown(w) && i < |w|
    ensures forall k | 0 <= k < |w[i].root| :: w[i].root[..k] in Roots(w[..i])
    decreases i
  {
    var d := w[i].root;
    if d != [] {
      var j :| 0 <= j < i && w[..i][j].root == Parent(d);
      assert w[j] == w[..i][j];
      AncestorsVisitedEarlier(w, j);
      forall k | 0 <= k < |d|
        ensures d[..k] in Roots(w[..i])
      {
        if k < |d| - 1 {
          assert d[..k] == w[j].root[..k];
          assert d[..k] in Roots(w[..j]);
          var m :| 0 <= m < j && w[..j][m].root == d[..k];
          assert w[..i][m] == w[..j][m];
        } else {
          assert d[..k] == w[..i][j].root;
        }
      }
    }
  }

  /** What a partial walk reaches besides its directories are files, each
      directly inside a visited directory. */
  lemma CoveredFiles(t: Tree, w: seq<WalkEntry>)
    requires PartialWalk(t, w)
    ensures forall q | q in Covered(w) && q !in Roots(w) ::
      q in t && t[q].File? && q != [] && Parent(q) in Roots(w)
  {
    forall q | q in Covered(w) && q !in Roots(w)
      ensures q in t && t[q].File? && q != [] && Parent(q) in Roots(w)
    {
      var i, f :| 0 <= i < |w| && f in w[i].files && q == w[i].root + [f];
      assert ListsFiles(t, w[i].root, w[i].files);
      assert Parent(q) == w[i].root;
    }
  }

  /** The directory of the last entry of a partial walk was not visited
      before, but its parent was. */
  lemma LastRootFresh(t: Tree, w: seq<WalkEntry>)
    requires PartialWalk(t, w) && w != []
    ensures var n := |w| - 1;
      && w[n].root !in Roots(w[..n])
      && (w[n].root == [] || Parent(w[n].root) in Roots(w[..n]))
  {
    var n := |w| - 1;
    forall q | q in Roots(w[..n])
      ensures q != w[n].root
    {
      var i :| 0 <= i < n && w[..n][i].root == q;
      assert w[..n][i] == w[i];
    }
  }

  /** The directory of the last entry of a partial walk was not reached
      before. */
  lemma LastRootUncovered(t: Tree, w: seq<WalkEntry>)
    requires PartialWalk(t, w) && w != []
    ensures w[|w| - 1].root !in Covered(w[..|w| - 1])
  {
    var n := |w| - 1;
    PartialWalkPrefix(t, w);
    LastRootFresh(t, w);
    CoveredFiles(t, w[..n]);
    assert w[n].root in Roots(w);
  }

  /** The files of the last entry of a partial walk were not reached before
      and differ from its directory. */
  lemma LastFilesFresh(t: Tree, w: seq<WalkEntry>)
    requires PartialWalk(t, w) && w != []
    ensures FilePaths(w[|w| - 1].root, w[|w| - 1].files) !! Covered(w[..|w| - 1]) + {w[|w| - 1].root}
  {
    var n := |w| - 1;
    var init := w[..n];
    var d := w[n].root;
    PartialWalkPrefix(t, w);
    LastRootFresh(t, w);
    CoveredFiles(t, init);
    assert ListsFiles(t, d, w[n].files);
    forall f | f in w[n].files
      ensures d + [f] !in Covered(init) + {d}
    {
      assert Parent(d + [f]) == d;
      assert d + [f] in t && t[d + [f]].File?;
      assert d + [f] !in DirsOf(t);
    }
  }

  /** The last entry of a partial walk reaches only paths no earlier entry
      reached, and the parent of its directory was reached before. */
  lemma LastEntryFresh(t: Tree, w: seq<WalkEntry>)
    requires PartialWalk(t, w) && w != []
    ensures var n := |w| - 1;
      && w[n].root !in Covered(w[..n])
      && (w[n].root == [] || Parent(w[n].root) in Covered(w[..n]))
      && FilePaths(w[n].root, w[n].files) !! Covered(w[..n]) + {w[n].root}
  {
    LastRootFresh(t, w);
    LastRootUncovered(t, w);
    LastFilesFresh(t, w);
  }

  /** `order` is an order in which the OS may list the paths `keys`: no path
      twice, all of `keys` present, and every path after its proper prefixes. */
  ghost predicate ListingOrder(order: seq<Path>, keys: set<Path>) {
    && Distinct(order)
    && (forall p | p in keys :: p in order)
    && forall i, j | 0 <= i < |order| && 0 <= j < |order| && order[j] < order[i] :: j < i
  }

  /** The names of the files directly in `d`, in listing order. */
  function FileNames(t: Tree, d: Path, order: seq<Path>): (names: seq<Name>)
    ensures forall f :: f in names <==> d + [f] in order && d + [f] in t && t[d + [f]].File?
    ensures Distinct(order) ==> Distinct(names)
  {
    if order == [] then []
    else
      var p := order[0];
      var here := if p != [] && Parent(p) == d && p in t && t[p].File? then [p[|p| - 1]] else [];
      assert p != [] && Parent(p) == d ==> d + [p[|p| - 1]] == p;
      here + FileNames(t, d, order[1..])
  }

  /** The walk entries for the directories among `dirs`, in that order, their
      files listed in the order `order`. */
  function Visits(t: Tree, dirs: seq<Path>, order: seq<Path>): (w: seq<WalkEntry>)
    ensures forall i | 0 <= i < |w| :: w[i].root in t && t[w[i].root].Dir?
    ensures forall i | 0 <= i < |w| :: w[i].files == FileNames(t, w[i].root, order)
  {
    if dirs == [] then []
    else
      var n := |dirs| - 1;
      var d := dirs[n];
      var w' := Visits(t, dirs[..n], order);
      if d in t && t[d].Dir? then w' + [WalkEntry(d, FileNames(t, d, order))] else w'
  }

  /** `Visits` keeps exactly the directories of `t` among `dirs`, and none
      twice when `dirs` has no duplicates. */
  lemma {:induction false} VisitsRoots(t: Tree, dirs: seq<Path>, order: seq<Path>)
    ensures Roots(Visits(t, dirs, order)) == set p | p in dirs && p in t && t[p].Dir?
    ensures Distinct(dirs) ==> var w := Visits(t, dirs, order);
      forall i, j | 0 <= i < j < |w| :: w[i].root != w[j].root
  {
    if dirs != [] {
      var n := |dirs| - 1;
      var d := dirs[n];
      var w' := Visits(t, dirs[..n], order);
      assert dirs == dirs[..n] + [d];
      VisitsRoots(t, dirs[..n], order);
      if d in t && t[d].Dir? {
        var w := w' + [WalkEntry(d, FileNames(t, d, order))];
        assert Visits(t, dirs, order) == w;
        assert w[..|w| - 1] == w';
        RootsSnoc(w);
        if Distinct(dirs) {
          assert d !in dirs[..n];
          forall i, j | 0 <= i < j < |w|
            ensures w[i].root != w[j].root
          {
            if j < |w'| {
              assert w[i] == w'[i] && w[j] == w'[j];
            } else {
              assert w[i] == w'[i] && w'[i].root in Roots(w');
            }
          }
        }
      } else {
        assert Visits(t, dirs, order) == w';
      }
    }
  }

  /** The top-down walk of `t` that lists paths in the order `order`. */
  function WalkTree(t: Tree, order: seq<Path>): seq<WalkEntry> {
    Visits(t, order, order)
  }

  /** Appending a directory whose parent was visited keeps a walk
      top-down. */
  lemma SnocTopDown(w: seq<WalkEntry>, e: WalkEntry)
    requires TopDown(w) && (e.root != [] ==> Parent(e.root) in Roots(w))
    ensures TopDown(w + [e])
  {
    var w' := w + [e];
    forall i | 0 <= i < |w'| && w'[i].root != []
      ensures Parent(w'[i].root) in Roots(w'[..i])
    {
      if i < |w| {
        assert w'[..i] == w[..i] && w'[i] == w[i];
      } else {
        assert w'[..i] == w;
      }
    }
  }

  /** Every directory of `t` in `dirs` other than the root comes after its
      parent. */
  ghost predicate ParentsFirst(t: Tree, dirs: seq<Path>) {
    forall i | 0 <= i < |dirs| && dirs[i] in t && dirs[i] != [] :: Parent(dirs[i]) in dirs[..i]
  }

  lemma ParentsFirstPrefix(t: Tree, dirs: seq<Path>)
    requires ParentsFirst(t, dirs) && dirs != []
    ensures ParentsFirst(t, dirs[..|dirs| - 1])
  {
    var n := |dirs| - 1;
    forall i | 0 <= i < n && dirs[..n][i] in t && dirs[..n][i] != []
      ensures Parent(dirs[..n][i]) in dirs[..n][..i]
    {
      assert dirs[..n][i] == dirs[i] && dirs[..n][..i] == dirs[..i];
    }
  }

  /** Visiting directories parents-first yields a top-down walk. */
  lemma {:induction false} VisitsTopDown(t: Tree, dirs: seq<Path>, order: seq<Path>)
    requires WellFormed(t) && ParentsFirst(t, dirs)
    ensures TopDown(Visits(t, dirs, order))
  {
    if dirs != [] {
      var n := |dirs| - 1;
      var d := dirs[n];
      var w' := Visits(t, dirs[..n], order);
      var e := WalkEntry(d, FileNames(t, d, order));
      ParentsFirstPrefix(t, dirs);
      VisitsTopDown(t, dirs[..n], order);
      VisitsRoots(t, dirs[..n], order);
      if d in t && t[d].Dir? {
        if d != [] {
          assert Parent(d) in dirs[..n];
          ParentPresent(t, d);
          assert Parent(d) in Roots(w');
        }
        SnocTopDown(w', e);
        assert Visits(t, dirs, order) == w' + [e];
      } else {
        assert Visits(t, dirs, order) == w';
      }
    }
  }

  /** The walk derived from a listing order is a top-down walk of the tree. */
  lemma WalkTreeIsWalk(t: Tree, order: seq<Path>)
    requires WellFormed(t) && ListingOrder(order, t.Keys)
    ensures IsWalk(t, WalkTree(t, order))
  {
    var w := WalkTree(t, order);
    forall i | 0 <= i < |order| && order[i] in t && order[i] != []
      ensures Parent(order[i]) in order[..i]
    {
      ParentPresent(t, order[i]);
      var j :| 0 <= j < |order| && order[j] == Parent(order[i]);
      assert order[j] < order[i];
    }
    VisitsTopDown(t, order, order);
    VisitsRoots(t, order, order);
    forall i | 0 <= i < |w|
      ensures ListsFiles(t, w[i].root, w[i].files)
    {
    }
  }

  /** A walk of a well-formed tree reaches exactly the tree's paths. */
  lemma WalkCoversTree(t: Tree, w: seq<WalkEntry>)
    requires WellFormed(t) && IsWalk(t, w)
    ensures Covered(w) == t.Keys
  {
    forall q | q in t
      ensures q in Covered(w)
    {
      if t[q].Dir? {
        assert q in DirsOf(t);
      } else {
        RootPresent(t, q);
        assert q != [];
        ParentPresent(t, q);
        assert Parent(q) in DirsOf(t);
        var i :| 0 <= i < |w| && w[i].root == Parent(q);
        assert Parent(q) + [q[|q| - 1]] == q;
        assert q[|q| - 1] in w[i].files;
      }
    }
    forall q | q in Covered(w)
      ensures q in t
    {
      if q !in Roots(w) {
        var i, f :| 0 <= i < |w| && f in w[i].files && q == w[i].root + [f];
        assert ListsFiles(t, w[i].root, w[i].files);
      }
    }
  }
}
