/** The second pass of a synchronisation, `delete_files`: walk the replica
    top-down; a directory missing from the source is removed with everything
    beneath it, and in a directory that stays, every file missing from the
    source is removed.

    As for the first pass, `PruneWalk` follows the code entry by entry, while
    `Surviving` and `Deletions` say declaratively what the pass keeps and
    what it logs. */
module PrunePass {
  import opened FileTree
  import opened Walking
  import opened SyncLog

  // ---------------------------------------------------------------------------
  // Intended effect
  // ---------------------------------------------------------------------------

  /** Every proper prefix of `q` exists in the source. */
  predicate AncestorsIn(src: Tree, q: Path) {
    forall k | 0 <= k < |q| :: q[..k] in src
  }

  /** Every path from the root down to `q`, `q` included, exists in the
      source: the replica paths the pass keeps. */
  predicate Kept(src: Tree, q: Path) {
    AncestorsIn(src, q) && q in src
  }

  /** No path on the way from the root down to `q` (`q` included) that the
      pass has reached is missing from the source. */
  predicate Spared(src: Tree, reached: set<Path>, q: Path) {
    forall k | 0 <= k <= |q| && q[..k] in reached :: q[..k] in src
  }

  /** The replica once the pass has reached the paths `reached`: what it
      reached missing from the source is gone, with everything beneath it. */
  function Surviving(src: Tree, rep: Tree, reached: set<Path>): Tree {
    map q | q in rep && Spared(src, reached, q) :: rep[q]
  }

  /** The log record of removing the replica path `q`. */
  function DeletionFor(rep: Tree, q: Path): Event
    requires q in rep
  {
    if rep[q].Dir? then DeletedDir(q) else DeletedFile(q)
  }

  /** The records the pass is meant to log on reaching `reached`: one for
      every reached replica path that is missing from the source while
      everything above it exists there. */
  function Deletions(src: Tree, rep: Tree, reached: set<Path>): set<Event> {
    set q | q in reached && q in rep && q !in src && AncestorsIn(src, q) :: DeletionFor(rep, q)
  }

  // ---------------------------------------------------------------------------
  // The code
  // ---------------------------------------------------------------------------

  /** `modules/sync.py` lines 55-60: remove each file listed in `d` whose mirrored source path
      does not exist. */
  function RemoveMissing(src: Tree, d: Path, files: seq<Name>, t: Tree): (r: Outcome)
    requires Distinct(files)
    requires forall f | f in files :: d + [f] in t && t[d + [f]].File?
    ensures forall q :: q in r.tree <==> q in t && (q in FilePaths(d, files) ==> q in src)
    ensures forall q | q in r.tree :: r.tree[q] == t[q]
    ensures forall ev | ev in r.log :: ev.DeletedFile?
    decreases |files|
  {
    if files == [] then
      Outcome(t, [])
    else
      var n := |files| - 1;
      var p := d + [files[n]];
      FilePathsSnoc(d, files);
      var prev := RemoveMissing(src, d, files[..n], t);
      if p in src then prev else Outcome(RemoveFile(prev.tree, p), prev.log + [DeletedFile(p)])
  }

  /** The records removing the missing files among `files` of `d` is meant
      to log. */
  function MissingFiles(src: Tree, d: Path, files: seq<Name>): set<Event> {
    set q | q in FilePaths(d, files) && q !in src :: DeletedFile(q)
  }

  /** The file loop logs one record per file it removes. */
  lemma {:induction false} RemoveMissingLogs(src: Tree, d: Path, files: seq<Name>, t: Tree)
    requires Distinct(files)
    requires forall f | f in files :: d + [f] in t && t[d + [f]].File?
    ensures LogsExactly(RemoveMissing(src, d, files, t).log, MissingFiles(src, d, files))
    decreases |files|
  {
    if files == [] {
      assert MissingFiles(src, d, files) == {};
    } else {
      var n := |files| - 1;
      var p := d + [files[n]];
      FilePathsSnoc(d, files);
      RemoveMissingLogs(src, d, files[..n], t);
      if p in src {
        assert MissingFiles(src, d, files) == MissingFiles(src, d, files[..n]);
      } else {
        assert MissingFiles(src, d, files) == MissingFiles(src, d, files[..n]) + {DeletedFile(p)};
        ConcatLogs(RemoveMissing(src, d, files[..n], t).log, [DeletedFile(p)],
                   MissingFiles(src, d, files[..n]), {DeletedFile(p)});
      }
    }
  }

  /** `modules/sync.py` lines 48-60 for the walk entry `e`. A directory removed by an earlier
      `rmtree` is never yielded by `os.walk` (listing it fails, and the
      failure is swallowed), so its entry does nothing. */
  function PruneDir(src: Tree, e: WalkEntry, t: Tree): (r: Outcome)
    requires e.root in t ==> t[e.root].Dir?
    requires e.root in t && e.root in src ==> Distinct(e.files)
    requires e.root in t && e.root in src ==>
               forall f | f in e.files :: e.root + [f] in t && t[e.root + [f]].File?
    // an entry whose directory an earlier `rmtree` removed does nothing
    ensures e.root !in t ==> r == Outcome(t, [])
    ensures forall q | q in r.tree :: q in t && r.tree[q] == t[q]
    ensures forall ev | ev in r.log :: ev.IsDeletion()
  {
    if e.root !in t then
      Outcome(t, [])
    else if e.root !in src then
      Outcome(RmTree(t, e.root), [DeletedDir(e.root)])
    else
      RemoveMissing(src, e.root, e.files, t)
  }

  /** `modules/sync.py` lines 47-60: the loop over the walk `w` of the replica, listed before
      the pass started. */
  function PruneWalk(src: Tree, w: seq<WalkEntry>, rep: Tree): (r: Outcome)
    requires WellFormed(rep) && PartialWalk(rep, w)
    ensures r.tree == Surviving(src, rep, Covered(w))
    ensures forall ev | ev in r.log :: ev.IsDeletion()
    decreases |w|
  {
    if w == [] then
      assert Surviving(src, rep, Covered(w)) == rep;
      Outcome(rep, [])
    else
      var n := |w| - 1;
      var e := w[n];
      PartialWalkPrefix(rep, w);
      var prev := PruneWalk(src, w[..n], rep);
      assert e.root in rep && rep[e.root].Dir? && ListsFiles(rep, e.root, e.files) by {
        assert e.root in Roots(w);
      }
      LastEntryFresh(rep, w);
      CoveredSnoc(w);
      PruneDirSettles(src, rep, Covered(w[..n]), e, prev.tree);
      var step := PruneDir(src, e, prev.tree);
      Outcome(step.tree, prev.log + step.log)
  }

  // ---------------------------------------------------------------------------
  // The code has the intended effect
  // ---------------------------------------------------------------------------

  /** Reaching the paths of an entry changes nothing for a path outside the
      subtree of the entry's directory. */
  lemma SparedOutside(src: Tree, c: set<Path>, e: WalkEntry, q: Path)
    requires !Beneath(e.root, q)
    ensures Spared(src, c + EntryPaths(e), q) == Spared(src, c, q)
  {
    forall k | 0 <= k <= |q|
      ensures q[..k] !in EntryPaths(e)
    {
      assert !Beneath(e.root, q[..k]);
      forall f | f in e.files
        ensures Beneath(e.root, e.root + [f])
      {
      }
    }
  }

  /** The entry of a directory that an earlier `rmtree` removed. */
  lemma PruneGoneDir(src: Tree, rep: Tree, c: set<Path>, e: WalkEntry, t: Tree)
    requires t == Surviving(src, rep, c)
    requires e.root in rep && e.root !in t
    ensures PruneDir(src, e, t).tree == Surviving(src, rep, c + EntryPaths(e))
  {
    var d := e.root;
    var k0 :| 0 <= k0 <= |d| && d[..k0] in c && d[..k0] !in src;
    forall q | q in rep
      ensures Spared(src, c + EntryPaths(e), q) == Spared(src, c, q)
    {
      if Beneath(d, q) {
        assert q[..k0] == d[..k0];
      } else {
        SparedOutside(src, c, e, q);
      }
    }
  }

  /** The entry of a directory missing from the source. */
  lemma PruneMissingDir(src: Tree, rep: Tree, c: set<Path>, e: WalkEntry, t: Tree)
    requires t == Surviving(src, rep, c)
    requires e.root in rep && rep[e.root].Dir? && e.root in t && e.root !in src
    ensures PruneDir(src, e, t).tree == Surviving(src, rep, c + EntryPaths(e))
  {
    var d := e.root;
    forall q | q in rep
      ensures Spared(src, c + EntryPaths(e), q) == (Spared(src, c, q) && !Beneath(d, q))
    {
      if Beneath(d, q) {
        assert q[..|d|] == d;
      } else {
        SparedOutside(src, c, e, q);
      }
    }
  }

  /** The entry of a directory that exists in the source. */
  lemma PruneKeptDir(src: Tree, rep: Tree, c: set<Path>, e: WalkEntry, t: Tree)
    requires WellFormed(rep) && t == Surviving(src, rep, c)
    requires e.root in rep && rep[e.root].Dir? && ListsFiles(rep, e.root, e.files)
    requires FilePaths(e.root, e.files) !! c + {e.root}
    requires e.root in t && e.root in src
    ensures forall f | f in e.files :: e.root + [f] in t && t[e.root + [f]].File?
    ensures PruneDir(src, e, t).tree == Surviving(src, rep, c + EntryPaths(e))
  {
    var d := e.root;
    var files := FilePaths(d, e.files);
    forall f | f in e.files
      ensures d + [f] in t
    {
      var p := d + [f];
      assert p in files;
      forall k | 0 <= k <= |p| && p[..k] in c
        ensures p[..k] in src
      {
        assert p[..|p|] == p;
        assert k < |p|;
        assert p[..k] == d[..k];
      }
    }
    forall q | q in rep
      ensures Spared(src, c + EntryPaths(e), q) == (Spared(src, c, q) && (q in files ==> q in src))
    {
      if Beneath(d, q) {
        // A listed file has nothing beneath it, so it can only be `q` itself.
        forall k | 0 <= k <= |q| && q[..k] in files
          ensures k == |q|
        {
          var f :| f in e.files && q[..k] == d + [f];
          assert rep[q[..k]].File?;
        }
        assert q[..|q|] == q;
      } else {
        SparedOutside(src, c, e, q);
        forall f | f in e.files
          ensures q != d + [f]
        {
          assert Beneath(d, d + [f]);
        }
      }
    }
  }

  /** One loop body turns the replica left by the paths `c` into the one
      left by `c` and the entry's paths, and never trips over a missing
      file. */
  lemma PruneDirSettles(src: Tree, rep: Tree, c: set<Path>, e: WalkEntry, t: Tree)
    requires WellFormed(rep) && t == Surviving(src, rep, c)
    requires e.root in rep && rep[e.root].Dir? && ListsFiles(rep, e.root, e.files)
    requires FilePaths(e.root, e.files) !! c + {e.root}
    ensures e.root in t ==> t[e.root].Dir?
    ensures e.root in t && e.root in src ==>
              forall f | f in e.files :: e.root + [f] in t && t[e.root + [f]].File?
    ensures PruneDir(src, e, t).tree == Surviving(src, rep, c + EntryPaths(e))
  {
    if e.root !in t {
      PruneGoneDir(src, rep, c, e, t);
    } else if e.root !in src {
      PruneMissingDir(src, rep, c, e, t);
    } else {
      PruneKeptDir(src, rep, c, e, t);
    }
  }

  /** The records for two sets of reached paths add up, and paths apart give
      records apart. */
  lemma DeletionsSplit(src: Tree, rep: Tree, a: set<Path>, b: set<Path>)
    ensures Deletions(src, rep, a + b) == Deletions(src, rep, a) + Deletions(src, rep, b)
    ensures a !! b ==> Deletions(src, rep, a) !! Deletions(src, rep, b)
  {
    if a !! b {
      forall ev | ev in Deletions(src, rep, a)
        ensures ev !in Deletions(src, rep, b)
      {
        assert ev.path in a;
      }
    }
  }

  /** The records of the entry of a directory that an earlier `rmtree`
      removed: none. */
  lemma PruneGoneDirLogs(src: Tree, rep: Tree, c: set<Path>, e: WalkEntry, t: Tree)
    requires t == Surviving(src, rep, c)
    requires e.root in rep && e.root !in t && e.root !in c
    ensures Deletions(src, rep, EntryPaths(e)) == {}
  {
    var d := e.root;
    var k0 :| 0 <= k0 <= |d| && d[..k0] in c && d[..k0] !in src;
    assert d[..|d|] == d;
    forall q | q in EntryPaths(e)
      ensures !AncestorsIn(src, q)
    {
      if q != d {
        var f :| f in e.files && q == d + [f];
        assert q[..k0] == d[..k0];
      }
    }
  }

  /** The entry of a directory missing from the source logs its removal and
      nothing for the files listed in it. */
  lemma PruneMissingDirLogs(src: Tree, rep: Tree, c: set<Path>, e: WalkEntry, t: Tree)
    requires t == Surviving(src, rep, c)
    requires e.root in rep && rep[e.root].Dir? && e.root in t && e.root !in src
    requires forall k | 0 <= k < |e.root| :: e.root[..k] in c
    ensures Deletions(src, rep, EntryPaths(e)) == {DeletedDir(e.root)}
  {
    var d := e.root;
    assert AncestorsIn(src, d) by {
      assert Spared(src, c, d);
    }
    forall f | f in e.files
      ensures !AncestorsIn(src, d + [f])
    {
      assert (d + [f])[..|d|] == d;
    }
  }

  /** The entry of a directory present in the source logs the removal of
      each of its listed files missing from the source. */
  lemma PruneKeptDirLogs(src: Tree, rep: Tree, c: set<Path>, e: WalkEntry, t: Tree)
    requires t == Surviving(src, rep, c)
    requires e.root in rep && rep[e.root].Dir? && ListsFiles(rep, e.root, e.files)
    requires e.root in t && e.root in src
    requires forall k | 0 <= k < |e.root| :: e.root[..k] in c
    ensures Deletions(src, rep, EntryPaths(e)) == MissingFiles(src, e.root, e.files)
  {
    var d := e.root;
    assert AncestorsIn(src, d) by {
      assert Spared(src, c, d);
    }
    forall f | f in e.files
      ensures AncestorsIn(src, d + [f]) && DeletionFor(rep, d + [f]) == DeletedFile(d + [f])
    {
      var p := d + [f];
      forall k | 0 <= k < |p|
        ensures p[..k] in src
      {
        if k < |d| {
          assert p[..k] == d[..k];
        } else {
          assert p[..k] == d;
        }
      }
    }
  }

  /** One loop body logs exactly the records meant for the entry's paths. */
  lemma PruneDirLogs(src: Tree, rep: Tree, c: set<Path>, e: WalkEntry, t: Tree)
    requires WellFormed(rep) && t == Surviving(src, rep, c)
    requires e.root in rep && rep[e.root].Dir? && ListsFiles(rep, e.root, e.files)
    requires e.root !in c && FilePaths(e.root, e.files) !! c + {e.root}
    requires forall k | 0 <= k < |e.root| :: e.root[..k] in c
    ensures e.root in t ==> t[e.root].Dir?
    ensures e.root in t && e.root in src ==>
              forall f | f in e.files :: e.root + [f] in t && t[e.root + [f]].File?
    ensures LogsExactly(PruneDir(src, e, t).log, Deletions(src, rep, EntryPaths(e)))
  {
    PruneDirSettles(src, rep, c, e, t);
    if e.root !in t {
      PruneGoneDirLogs(src, rep, c, e, t);
    } else if e.root !in src {
      PruneMissingDirLogs(src, rep, c, e, t);
    } else {
      PruneKeptDirLogs(src, rep, c, e, t);
      RemoveMissingLogs(src, e.root, e.files, t);
    }
  }

  /** One more loop iteration keeps the log exact. */
  lemma PruneStepLogs(src: Tree, rep: Tree, c: set<Path>, e: WalkEntry, prev: Outcome)
    requires WellFormed(rep) && prev.tree == Surviving(src, rep, c)
    requires LogsExactly(prev.log, Deletions(src, rep, c))
    requires e.root in rep && rep[e.root].Dir? && ListsFiles(rep, e.root, e.files)
    requires e.root !in c && FilePaths(e.root, e.files) !! c + {e.root}
    requires forall k | 0 <= k < |e.root| :: e.root[..k] in c
    ensures e.root in prev.tree ==> prev.tree[e.root].Dir?
    ensures e.root in prev.tree && e.root in src ==>
              forall f | f in e.files :: e.root + [f] in prev.tree && prev.tree[e.root + [f]].File?
    ensures LogsExactly(prev.log + PruneDir(src, e, prev.tree).log, Deletions(src, rep, c + EntryPaths(e)))
  {
    PruneDirLogs(src, rep, c, e, prev.tree);
    DeletionsSplit(src, rep, c, EntryPaths(e));
    ConcatLogs(prev.log, PruneDir(src, e, prev.tree).log, Deletions(src, rep, c), Deletions(src, rep, EntryPaths(e)));
  }

  /** The walk loop logs exactly the records meant for the paths it reached. */
  lemma {:induction false} PruneWalkLogs(src: Tree, w: seq<WalkEntry>, rep: Tree)
    requires WellFormed(rep) && PartialWalk(rep, w)
    ensures LogsExactly(PruneWalk(src, w, rep).log, Deletions(src, rep, Covered(w)))
    decreases |w|
  {
    if w == [] {
      assert Deletions(src, rep, Covered(w)) == {};
    } else {
      var n := |w| - 1;
      var e := w[n];
      PartialWalkPrefix(rep, w);
      PruneWalkLogs(src, w[..n], rep);
      assert e.root in rep && rep[e.root].Dir? && ListsFiles(rep, e.root, e.files) by {
        assert e.root in Roots(w);
      }
      LastEntryFresh(rep, w);
      AncestorsVisitedEarlier(w, n);
      PruneStepLogs(src, rep, Covered(w[..n]), e, PruneWalk(src, w[..n], rep));
      CoveredSnoc(w);
    }
  }

  /** Once the pass has reached every replica path, it has kept exactly the
      paths all of whose prefixes exist in the source, and the result is a
      tree. */
  lemma SurvivingAll(src: Tree, rep: Tree)
    requires WellFormed(rep)
    ensures forall q :: q in Surviving(src, rep, rep.Keys) <==> q in rep && Kept(src, q)
    ensures WellFormed(Surviving(src, rep, rep.Keys))
  {
    var r := Surviving(src, rep, rep.Keys);
    forall q | q in rep
      ensures Spared(src, rep.Keys, q) <==> Kept(src, q)
    {
      assert q[..|q|] == q;
    }
    forall q, k | q in r && 0 <= k < |q|
      ensures q[..k] in r
    {
      var p := q[..k];
      forall j | 0 <= j <= |p|
        ensures p[..j] == q[..j]
      {
      }
    }
  }

  /** What the intended log of the whole pass says path by path. */
  lemma DeletionsPathwise(src: Tree, rep: Tree)
    ensures var D := Deletions(src, rep, rep.Keys);
      && (forall q | q in rep :: DeletionFor(rep, q) in D <==> q !in src && AncestorsIn(src, q))
      && (forall ev | ev in D :: ev.IsDeletion() && ev.path in rep && ev == DeletionFor(rep, ev.path))
  {
    var D := Deletions(src, rep, rep.Keys);
    forall q | q in rep
      ensures DeletionFor(rep, q) in D <==> q !in src && AncestorsIn(src, q)
    {
      if q !in src && AncestorsIn(src, q) {
        assert DeletionFor(rep, q) in D;
      } else {
        forall x | x in rep && x !in src && AncestorsIn(src, x)
          ensures DeletionFor(rep, x) != DeletionFor(rep, q)
        {
          assert DeletionFor(rep, x).path == x && DeletionFor(rep, q).path == q;
        }
      }
    }
  }

  // ---------------------------------------------------------------------------
  // delete_files
  // ---------------------------------------------------------------------------

  /** `delete_files(source, replica)` on a top-down walk `w` of the replica. */
  function DeleteFiles(src: Tree, w: seq<WalkEntry>, rep: Tree): (r: Outcome)
    requires WellFormed(rep) && IsWalk(rep, w)
    // a replica path stays exactly when every path down to it exists in the
    // source; what stays is untouched
    ensures forall q :: q in r.tree <==> q in rep && Kept(src, q)
    ensures forall q | q in r.tree :: r.tree[q] == rep[q]
    ensures WellFormed(src) ==> r.tree.Keys == rep.Keys * src.Keys
    ensures WellFormed(r.tree)
    // one record per topmost replica path missing from the source, naming
    // the directory or file removed, and no other
    ensures Distinct(r.log)
    ensures forall q | q in rep && rep[q].Dir? :: DeletedDir(q) in r.log <==> q !in src && AncestorsIn(src, q)
    ensures forall q | q in rep && rep[q].File? :: DeletedFile(q) in r.log <==> q !in src && AncestorsIn(src, q)
    ensures forall ev | ev in r.log :: ev.IsDeletion() && ev.path in rep && ev == DeletionFor(rep, ev.path)
    ensures LogsExactly(r.log, Deletions(src, rep, rep.Keys))
  {
    WalkCoversTree(rep, w);
    PruneWalkLogs(src, w, rep);
    SurvivingAll(src, rep);
    DeletionsPathwise(src, rep);
    PruneWalk(src, w, rep)
  }

  /** Beneath a path missing from the source, nothing is kept and nothing
      but that path itself has all its ancestors in the source. */
  lemma MissingBelow(src: Tree, d: Path, q: Path)
    requires d !in src && Beneath(d, q)
    ensures !Kept(src, q)
    ensures q != d ==> !AncestorsIn(src, q)
  {
    if |q| == |d| {
      assert q == d;
    } else {
      assert q[..|d|] == d;
    }
  }

  /** A directory the pass removes goes with its whole subtree. */
  lemma DeletedDirTakesSubtree(src: Tree, w: seq<WalkEntry>, rep: Tree, d: Path)
    requires WellFormed(rep) && IsWalk(rep, w)
    ensures DeletedDir(d) in DeleteFiles(src, w, rep).log ==>
              forall q | Beneath(d, q) :: q !in DeleteFiles(src, w, rep).tree
  {
    if DeletedDir(d) in DeleteFiles(src, w, rep).log {
      assert d !in src;
      forall q | Beneath(d, q)
        ensures q !in DeleteFiles(src, w, rep).tree
      {
        MissingBelow(src, d, q);
      }
    }
  }

  /** In a log that records, for each replica path, its deletion exactly when
      the path is missing from the source while all its ancestors are there,
      nothing beneath a recorded directory is recorded but that directory. */
  lemma NoRecordBeneath(src: Tree, rep: Tree, log: seq<Event>, d: Path)
    requires forall q | q in rep && rep[q].Dir? :: DeletedDir(q) in log <==> q !in src && AncestorsIn(src, q)
    requires forall q | q in rep && rep[q].File? :: DeletedFile(q) in log <==> q !in src && AncestorsIn(src, q)
    requires forall ev | ev in log :: ev.path in rep && ev == DeletionFor(rep, ev.path)
    requires DeletedDir(d) in log
    ensures forall ev | ev in log && Beneath(d, ev.path) :: ev == DeletedDir(d)
  {
    assert DeletedDir(d) == DeletionFor(rep, d);
    assert d !in src;
    forall ev | ev in log && Beneath(d, ev.path)
      ensures ev == DeletedDir(d)
    {
      var q := ev.path;
      assert AncestorsIn(src, q) by {
        if rep[q].Dir? {
          assert DeletedDir(q) in log;
        } else {
          assert DeletedFile(q) in log;
        }
      }
      MissingBelow(src, d, q);
      assert q == d;
    }
  }

  /** Nothing beneath a directory the pass removes is logged. */
  lemma NothingLoggedBeneath(src: Tree, w: seq<WalkEntry>, rep: Tree, d: Path)
    requires WellFormed(rep) && IsWalk(rep, w)
    ensures DeletedDir(d) in DeleteFiles(src, w, rep).log ==>
              forall ev | ev in DeleteFiles(src, w, rep).log && Beneath(d, ev.path) :: ev == DeletedDir(d)
  {
    if DeletedDir(d) in DeleteFiles(src, w, rep).log {
      NoRecordBeneath(src, rep, DeleteFiles(src, w, rep).log, d);
    }
  }
}
