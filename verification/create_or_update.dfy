/** The first pass of a synchronisation, `create_or_update`: walk the source
    top-down, create every directory the replica lacks, and copy every source
    file whose replica counterpart is missing or has a different fingerprint.

    The pass is modelled twice. `UpdateWalk` follows the code entry by entry;
    `Settled` and `Actions` say declaratively which tree and which log the
    pass is meant to produce. `UpdateWalkSettles` proves the two agree. */
module UpdatePass {
  import opened FileTree
  import opened Walking
  import opened SyncLog

  // ---------------------------------------------------------------------------
  // Intended effect
  // ---------------------------------------------------------------------------

  /** The nodes are of the same kind and, for files, have the same fingerprint. */
  predicate SameFingerprint(hash: Bytes -> Digest, a: Node, b: Node) {
    || (a.Dir? && b.Dir?)
    || (a.File? && b.File? && hash(a.content) == hash(b.content))
  }

  /** The pass must act at source path `p`: the replica holds no matching node. */
  predicate Acts(hash: Bytes -> Digest, src: Tree, rep: Tree, p: Path)
    requires p in src
  {
    p !in rep || !SameFingerprint(hash, src[p], rep[p])
  }

  /** The replica once the pass has reached the source paths `covered`: at
      each of them where it must act the source node, elsewhere the replica
      as it was. */
  function Settled(hash: Bytes -> Digest, src: Tree, rep: Tree, covered: set<Path>): Tree
    requires covered <= src.Keys
  {
    map p | p in rep.Keys + covered ::
      if p in covered && Acts(hash, src, rep, p) then src[p] else rep[p]
  }

  /** The log record of acting at source path `p`. */
  function ActionFor(src: Tree, p: Path): (e: Event)
    requires p in src
  {
    if src[p].Dir? then CreatedDir(p) else CopiedFile(p)
  }

  /** The records the pass is meant to log on reaching the paths `covered`. */
  function Actions(hash: Bytes -> Digest, src: Tree, rep: Tree, covered: set<Path>): set<Event>
    requires covered <= src.Keys
  {
    set p | p in covered && Acts(hash, src, rep, p) :: ActionFor(src, p)
  }

  /** `r` differs from `t` only by new paths and overwritten files, each
      carrying the source's node. */
  ghost predicate OnlyAddsOrOverwrites(src: Tree, t: Tree, r: Tree) {
    && (forall p | p in t :: p in r)
    && (forall p | p in r && p !in t :: p in src && r[p] == src[p])
    && (forall p | p in t && r[p] != t[p] :: p in src && src[p].File? && r[p] == src[p])
  }

  lemma OnlyAddsOrOverwritesTrans(src: Tree, t1: Tree, t2: Tree, t3: Tree)
    requires OnlyAddsOrOverwrites(src, t1, t2) && OnlyAddsOrOverwrites(src, t2, t3)
    ensures OnlyAddsOrOverwrites(src, t1, t3)
  {
  }

  // ---------------------------------------------------------------------------
  // The code
  // ---------------------------------------------------------------------------

  /** `modules/sync.py` lines 22-26 for the walked directory `d`: create it, with any missing
      directory above it, when nothing exists at its mirrored path. */
  function VisitDir(src: Tree, d: Path, t: Tree): (r: Outcome)
    requires WellFormed(src) && d in src && src[d].Dir? && KindsAgree(src, t)
    ensures d in r.tree && r.tree[d] == Dir
    ensures KindsAgree(src, r.tree) && OnlyAddsOrOverwrites(src, t, r.tree)
    ensures WellFormed(t) ==> WellFormed(r.tree)
    // it only adds: everything already there stays as it was
    ensures forall p | p in t :: p in r.tree && r.tree[p] == t[p]
    ensures forall e | e in r.log :: e == CreatedDir(d)
    // a step that logs nothing changes nothing
    ensures r.log == [] ==> r.tree == t
  {
    if d !in t then
      var r := MakeDirs(t, d);
      assert forall p | p in r && p !in t :: p == d[..|p|];
      Outcome(r, [CreatedDir(d)])
    else
      Outcome(t, [])
  }

  /** `modules/sync.py` lines 29-33 for one source file `p`: copy it when the replica has nothing
      there or the fingerprints differ. */
  function CopyIfChanged(hash: Bytes -> Digest, src: Tree, p: Path, t: Tree): (r: Outcome)
    requires p in src && src[p].File? && p != []
    requires Parent(p) in t && t[Parent(p)].Dir? && KindsAgree(src, t)
    ensures KindsAgree(src, r.tree) && OnlyAddsOrOverwrites(src, t, r.tree)
    ensures WellFormed(t) ==> WellFormed(r.tree)
    ensures forall e | e in r.log :: e == CopiedFile(p)
    // the copy is logged exactly when the replica holds no file with the source's fingerprint
    ensures r.log != [] <==> !(p in t && SameFingerprint(hash, src[p], t[p]))
    // a logged copy leaves the source's node at `p` and touches nothing else;
    // a step that logs nothing changes nothing
    ensures r.log != [] ==> p in r.tree && r.tree[p] == src[p]
    ensures forall q | q in r.tree && q != p :: q in t && r.tree[q] == t[q]
    ensures r.log == [] ==> r.tree == t
  {
    if p !in t || hash(src[p].content) != hash(t[p].content) then
      Outcome(CopyFile(t, p, src[p].content), [CopiedFile(p)])
    else
      Outcome(t, [])
  }

  /** `modules/sync.py` lines 28-33: the file loop over the names `files` listed in `d`. */
  function CopyFiles(hash: Bytes -> Digest, src: Tree, d: Path, files: seq<Name>, t: Tree): (r: Outcome)
    requires d in t && t[d].Dir? && KindsAgree(src, t)
    requires forall f | f in files :: d + [f] in src && src[d + [f]].File?
    ensures d in r.tree && r.tree[d].Dir?
    ensures KindsAgree(src, r.tree) && OnlyAddsOrOverwrites(src, t, r.tree)
    ensures WellFormed(t) ==> WellFormed(r.tree)
    ensures forall e | e in r.log :: e.CopiedFile? && e.path in src && e.path != [] && Parent(e.path) == d
    decreases |files|
  {
    if files == [] then
      Outcome(t, [])
    else
      var prev := CopyFiles(hash, src, d, files[..|files| - 1], t);
      var p := d + [files[|files| - 1]];
      assert Parent(p) == d;
      var step := CopyIfChanged(hash, src, p, prev.tree);
      OnlyAddsOrOverwritesTrans(src, t, prev.tree, step.tree);
      Outcome(step.tree, prev.log + step.log)
  }

  /** Every walk entry names a source directory and source files in it. */
  ghost predicate EntriesIn(src: Tree, w: seq<WalkEntry>) {
    forall i | 0 <= i < |w| ::
      && w[i].root in src && src[w[i].root].Dir?
      && forall f | f in w[i].files :: w[i].root + [f] in src && src[w[i].root + [f]].File?
  }

  /** `modules/sync.py` lines 22-33: the body of the walk loop for one entry. */
  function VisitEntry(hash: Bytes -> Digest, src: Tree, e: WalkEntry, t: Tree): (r: Outcome)
    requires WellFormed(src) && KindsAgree(src, t) && e.root in src && src[e.root].Dir?
    requires forall f | f in e.files :: e.root + [f] in src && src[e.root + [f]].File?
    ensures KindsAgree(src, r.tree) && OnlyAddsOrOverwrites(src, t, r.tree)
    ensures WellFormed(t) ==> WellFormed(r.tree)
    ensures forall ev | ev in r.log :: !ev.IsDeletion() && ev.path in src
  {
    var dir := VisitDir(src, e.root, t);
    var files := CopyFiles(hash, src, e.root, e.files, dir.tree);
    OnlyAddsOrOverwritesTrans(src, t, dir.tree, files.tree);
    Outcome(files.tree, dir.log + files.log)
  }

  /** `modules/sync.py` lines 21-33: the loop over the walk `w` of the source. */
  function UpdateWalk(hash: Bytes -> Digest, src: Tree, w: seq<WalkEntry>, rep: Tree): (r: Outcome)
    requires WellFormed(src) && KindsAgree(src, rep) && EntriesIn(src, w)
    ensures KindsAgree(src, r.tree) && OnlyAddsOrOverwrites(src, rep, r.tree)
    ensures WellFormed(rep) ==> WellFormed(r.tree)
    ensures forall e | e in r.log :: !e.IsDeletion() && e.path in src
    decreases |w|
  {
    if w == [] then
      Outcome(rep, [])
    else
      var prev := UpdateWalk(hash, src, w[..|w| - 1], rep);
      var step := VisitEntry(hash, src, w[|w| - 1], prev.tree);
      OnlyAddsOrOverwritesTrans(src, rep, prev.tree, step.tree);
      Outcome(step.tree, prev.log + step.log)
  }

  // ---------------------------------------------------------------------------
  // The code has the intended effect
  // ---------------------------------------------------------------------------

  lemma ActionsSplit(hash: Bytes -> Digest, src: Tree, rep: Tree, a: set<Path>, b: set<Path>)
    requires a <= src.Keys && b <= src.Keys
    ensures Actions(hash, src, rep, a + b) == Actions(hash, src, rep, a) + Actions(hash, src, rep, b)
    ensures a !! b ==> Actions(hash, src, rep, a) !! Actions(hash, src, rep, b)
  {
    if a !! b {
      forall e | e in Actions(hash, src, rep, a)
        ensures e !in Actions(hash, src, rep, b)
      {
        assert e.path in a;
      }
    }
  }

  /** One directory step settles that directory. */
  lemma VisitDirSettles(hash: Bytes -> Digest, src: Tree, rep: Tree, c: set<Path>, d: Path, t: Tree)
    requires WellFormed(src) && KindsAgree(src, rep) && c <= src.Keys
    requires WellFormed(t) && KindsAgree(src, t) && t == Settled(hash, src, rep, c)
    requires d in src && src[d].Dir? && d !in c
    requires d == [] || Parent(d) in t
    ensures VisitDir(src, d, t).tree == Settled(hash, src, rep, c + {d})
    ensures LogsExactly(VisitDir(src, d, t).log, Actions(hash, src, rep, {d}))
  {
    var next := Settled(hash, src, rep, c + {d});
    if d in t {
      assert next == t;
    } else {
      assert next == t[d := Dir];
    }
  }

  /** One file step settles that file. */
  lemma CopyIfChangedSettles(hash: Bytes -> Digest, src: Tree, rep: Tree, c: set<Path>, p: Path, t: Tree)
    requires KindsAgree(src, rep) && c <= src.Keys
    requires KindsAgree(src, t) && t == Settled(hash, src, rep, c)
    requires p in src && src[p].File? && p !in c && p != []
    requires Parent(p) in t && t[Parent(p)].Dir?
    ensures CopyIfChanged(hash, src, p, t).tree == Settled(hash, src, rep, c + {p})
    ensures LogsExactly(CopyIfChanged(hash, src, p, t).log, Actions(hash, src, rep, {p}))
  {
    var next := Settled(hash, src, rep, c + {p});
    if Acts(hash, src, rep, p) {
      assert next == t[p := src[p]];
    } else {
      assert next == t;
    }
  }

  /** The file loop settles the files it lists. */
  lemma {:induction false} CopyFilesSettles(hash: Bytes -> Digest, src: Tree, rep: Tree, c: set<Path>,
                                            d: Path, files: seq<Name>, t: Tree)
    requires KindsAgree(src, rep) && c <= src.Keys
    requires WellFormed(t) && KindsAgree(src, t) && t == Settled(hash, src, rep, c)
    requires d in t && t[d].Dir? && Distinct(files)
    requires forall f | f in files :: d + [f] in src && src[d + [f]].File? && d + [f] !in c
    ensures CopyFiles(hash, src, d, files, t).tree == Settled(hash, src, rep, c + FilePaths(d, files))
    ensures LogsExactly(CopyFiles(hash, src, d, files, t).log, Actions(hash, src, rep, FilePaths(d, files)))
    decreases |files|
  {
    if files == [] {
      assert FilePaths(d, files) == {};
      assert c + {} == c;
    } else {
      var n := |files| - 1;
      var init := files[..n];
      var p := d + [files[n]];
      FilePathsSnoc(d, files);
      CopyFilesSettles(hash, src, rep, c, d, init, t);
      var prev := CopyFiles(hash, src, d, init, t);
      CopyIfChangedSettles(hash, src, rep, c + FilePaths(d, init), p, prev.tree);
      ActionsSplit(hash, src, rep, FilePaths(d, init), {p});
      ConcatLogs(prev.log, CopyIfChanged(hash, src, p, prev.tree).log,
                 Actions(hash, src, rep, FilePaths(d, init)), Actions(hash, src, rep, {p}));
      assert c + FilePaths(d, init) + {p} == c + FilePaths(d, files);
    }
  }

  /** The entries of a partial walk of the source name source directories
      and source files. */
  lemma PartialWalkEntriesIn(src: Tree, w: seq<WalkEntry>)
    requires PartialWalk(src, w)
    ensures EntriesIn(src, w)
    ensures Covered(w) <= src.Keys
  {
    forall i | 0 <= i < |w|
      ensures w[i].root in src && src[w[i].root].Dir?
    {
      assert w[i].root in Roots(w);
    }
    forall q | q in Covered(w)
      ensures q in src
    {
      if q !in Roots(w) {
        var i, f :| 0 <= i < |w| && f in w[i].files && q == w[i].root + [f];
        assert ListsFiles(src, w[i].root, w[i].files);
      }
    }
  }

  /** One loop body settles the entry's directory and files. */
  lemma VisitEntrySettles(hash: Bytes -> Digest, src: Tree, rep: Tree, c: set<Path>, e: WalkEntry, t: Tree)
    requires WellFormed(src) && KindsAgree(src, rep) && c <= src.Keys
    requires WellFormed(t) && KindsAgree(src, t) && t == Settled(hash, src, rep, c)
    requires e.root in src && src[e.root].Dir? && ListsFiles(src, e.root, e.files)
    requires e.root !in c && (e.root == [] || Parent(e.root) in c)
    requires FilePaths(e.root, e.files) !! c + {e.root}
    ensures VisitEntry(hash, src, e, t).tree == Settled(hash, src, rep, c + EntryPaths(e))
    ensures LogsExactly(VisitEntry(hash, src, e, t).log, Actions(hash, src, rep, EntryPaths(e)))
  {
    var d := e.root;
    VisitDirSettles(hash, src, rep, c, d, t);
    var dir := VisitDir(src, d, t);
    forall f | f in e.files
      ensures d + [f] in src && src[d + [f]].File? && d + [f] !in c + {d}
    {
      assert d + [f] in FilePaths(d, e.files);
    }
    CopyFilesSettles(hash, src, rep, c + {d}, d, e.files, dir.tree);
    var files := CopyFiles(hash, src, d, e.files, dir.tree);
    assert EntryPaths(e) == {d} + FilePaths(d, e.files);
    ActionsSplit(hash, src, rep, {d}, FilePaths(d, e.files));
    ConcatLogs(dir.log, files.log, Actions(hash, src, rep, {d}), Actions(hash, src, rep, FilePaths(d, e.files)));
    assert c + {d} + FilePaths(d, e.files) == c + EntryPaths(e);
  }

  /** One more loop iteration, after the loop has settled the paths `c`,
      settles the paths of the entry `e` as well. */
  lemma WalkStepSettles(hash: Bytes -> Digest, src: Tree, rep: Tree, c: set<Path>, e: WalkEntry, prev: Outcome)
    requires WellFormed(src) && KindsAgree(src, rep) && c <= src.Keys
    requires WellFormed(prev.tree) && KindsAgree(src, prev.tree) && prev.tree == Settled(hash, src, rep, c)
    requires LogsExactly(prev.log, Actions(hash, src, rep, c))
    requires e.root in src && src[e.root].Dir? && ListsFiles(src, e.root, e.files)
    requires e.root !in c && (e.root == [] || Parent(e.root) in c)
    requires FilePaths(e.root, e.files) !! c + {e.root}
    ensures c + EntryPaths(e) <= src.Keys
    ensures VisitEntry(hash, src, e, prev.tree).tree == Settled(hash, src, rep, c + EntryPaths(e))
    ensures LogsExactly(prev.log + VisitEntry(hash, src, e, prev.tree).log, Actions(hash, src, rep, c + EntryPaths(e)))
  {
    VisitEntrySettles(hash, src, rep, c, e, prev.tree);
    ActionsSplit(hash, src, rep, c, EntryPaths(e));
    ConcatLogs(prev.log, VisitEntry(hash, src, e, prev.tree).log, Actions(hash, src, rep, c), Actions(hash, src, rep, EntryPaths(e)));
  }

  /** The walk loop settles every path of a top-down walk of the source. */
  lemma {:induction false} UpdateWalkSettles(hash: Bytes -> Digest, src: Tree, w: seq<WalkEntry>, rep: Tree)
    requires WellFormed(src) && WellFormed(rep) && KindsAgree(src, rep)
    requires PartialWalk(src, w)
    ensures EntriesIn(src, w) && Covered(w) <= src.Keys
    ensures UpdateWalk(hash, src, w, rep).tree == Settled(hash, src, rep, Covered(w))
    ensures LogsExactly(UpdateWalk(hash, src, w, rep).log, Actions(hash, src, rep, Covered(w)))
    decreases |w|
  {
    PartialWalkEntriesIn(src, w);
    if w == [] {
      assert Covered(w) == {};
      assert Settled(hash, src, rep, {}) == rep;
    } else {
      var n := |w| - 1;
      var e := w[n];
      var c := Covered(w[..n]);
      PartialWalkPrefix(src, w);
      UpdateWalkSettles(hash, src, w[..n], rep);
      var prev := UpdateWalk(hash, src, w[..n], rep);
      assert e.root in src && src[e.root].Dir? && ListsFiles(src, e.root, e.files) by {
        assert e.root in Roots(w);
      }
      LastEntryFresh(src, w);
      WalkStepSettles(hash, src, rep, c, e, prev);
      CoveredSnoc(w);
    }
  }

  /** What the intended effect says path by path. */
  lemma SettledPathwise(hash: Bytes -> Digest, src: Tree, rep: Tree)
    requires KindsAgree(src, rep)
    ensures var r := Settled(hash, src, rep, src.Keys);
      && (forall p | p in src :: p in r && r[p].Dir? == src[p].Dir?)
      && (forall p | p in src && src[p].File? :: hash(r[p].content) == hash(src[p].content))
      && (forall p | p in src && p in rep && SameFingerprint(hash, src[p], rep[p]) :: r[p] == rep[p])
      && (forall p | p in r :: p in rep || p in src)
  {
  }

  /** What the intended log says path by path. */
  lemma ActionsPathwise(hash: Bytes -> Digest, src: Tree, rep: Tree)
    requires KindsAgree(src, rep)
    ensures var a := Actions(hash, src, rep, src.Keys);
      && (forall p | p in src && src[p].Dir? :: CreatedDir(p) in a <==> p !in rep)
      && (forall p | p in src && src[p].File? ::
            CopiedFile(p) in a <==> (p !in rep || hash(src[p].content) != hash(rep[p].content)))
  {
    var a := Actions(hash, src, rep, src.Keys);
    // An action names the path it acts at.
    forall p | p in src
      ensures ActionFor(src, p) in a <==> Acts(hash, src, rep, p)
    {
      if Acts(hash, src, rep, p) {
        assert ActionFor(src, p) in a;
      } else {
        forall q | q in src && Acts(hash, src, rep, q)
          ensures ActionFor(src, q) != ActionFor(src, p)
        {
          assert ActionFor(src, q).path == q && ActionFor(src, p).path == p;
        }
      }
    }
  }

  // ---------------------------------------------------------------------------
  // Order of the records
  // ---------------------------------------------------------------------------

  /** One iteration logs the creation of its directory, if any, first, and
      then only copies of files directly in that directory. */
  lemma VisitEntryOrder(hash: Bytes -> Digest, src: Tree, e: WalkEntry, t: Tree)
    requires WellFormed(src) && KindsAgree(src, t) && e.root in src && src[e.root].Dir?
    requires forall f | f in e.files :: e.root + [f] in src && src[e.root + [f]].File?
    ensures var log := VisitEntry(hash, src, e, t).log;
      && (forall ev | ev in log :: ev == CreatedDir(e.root) || (ev.CopiedFile? && ev.path != [] && Parent(ev.path) == e.root))
      && ParentsLoggedFirst(log)
  {
    var dir := VisitDir(src, e.root, t);
    var files := CopyFiles(hash, src, e.root, e.files, dir.tree);
    assert VisitEntry(hash, src, e, t).log == dir.log + files.log;
    DirThenFiles(dir.log, files.log, e.root);
  }

  /** Records of the creation of `d` followed by copies of files directly in
      `d` put the creation first. */
  lemma DirThenFiles(dirLog: seq<Event>, filesLog: seq<Event>, d: Path)
    requires forall ev | ev in dirLog :: ev == CreatedDir(d)
    requires forall ev | ev in filesLog :: ev.CopiedFile? && ev.path != [] && Parent(ev.path) == d
    ensures forall ev | ev in dirLog + filesLog ::
              ev == CreatedDir(d) || (ev.CopiedFile? && ev.path != [] && Parent(ev.path) == d)
    ensures ParentsLoggedFirst(dirLog + filesLog)
  {
    var log := dirLog + filesLog;
    forall k | 0 <= k < |log|
      ensures k < |dirLog| ==> log[k] == CreatedDir(d)
      ensures k >= |dirLog| ==> log[k].CopiedFile? && log[k].path != [] && Parent(log[k].path) == d
    {
      if k < |dirLog| {
        assert log[k] == dirLog[k] && dirLog[k] in dirLog;
      } else {
        assert log[k] == filesLog[k - |dirLog|] && filesLog[k - |dirLog|] in filesLog;
      }
    }
  }

  /** A log of creations of the directories `roots` and copies of files
      directly in them names nothing directly inside a directory `d` missing
      from `roots`, provided the parent of each of `roots` is among them. */
  lemma NothingInsideNewDir(log: seq<Event>, roots: set<Path>, d: Path)
    requires forall r | r in roots && r != [] :: Parent(r) in roots
    requires d !in roots
    requires forall ev | ev in log ::
               || (ev.CreatedDir? && ev.path in roots)
               || (ev.CopiedFile? && ev.path != [] && Parent(ev.path) in roots)
    ensures forall ev | ev in log :: ev.path == [] || Parent(ev.path) != d
  {
  }

  /** Appending the records of one directory `d` to a log that names nothing
      directly inside `d` keeps creations before what lies directly inside. */
  lemma OrderedConcat(prev: seq<Event>, step: seq<Event>, d: Path)
    requires ParentsLoggedFirst(prev) && ParentsLoggedFirst(step)
    requires forall ev | ev in prev :: ev.path == [] || Parent(ev.path) != d
    requires forall ev | ev in step :: ev == CreatedDir(d) || (ev.CopiedFile? && ev.path != [] && Parent(ev.path) == d)
    ensures ParentsLoggedFirst(prev + step)
  {
    var log := prev + step;
    forall k | 0 <= k < |prev|
      ensures log[k] == prev[k] && (log[k].path == [] || Parent(log[k].path) != d)
    {
      assert prev[k] in prev;
    }
    forall k | |prev| <= k < |log|
      ensures log[k] == step[k - |prev|]
      ensures log[k] == CreatedDir(d) || (log[k].CopiedFile? && log[k].path != [] && Parent(log[k].path) == d)
    {
      assert step[k - |prev|] in step;
    }
  }

  /** The walk loop logs creations of visited directories and copies of files
      directly in them, and the creation of a directory before anything
      directly inside it. */
  lemma {:induction false} UpdateWalkOrder(hash: Bytes -> Digest, src: Tree, w: seq<WalkEntry>, rep: Tree)
    requires WellFormed(src) && KindsAgree(src, rep) && PartialWalk(src, w)
    ensures EntriesIn(src, w)
    ensures var log := UpdateWalk(hash, src, w, rep).log;
      && (forall ev | ev in log ::
            || (ev.CreatedDir? && ev.path in Roots(w))
            || (ev.CopiedFile? && ev.path != [] && Parent(ev.path) in Roots(w)))
      && ParentsLoggedFirst(log)
    decreases |w|
  {
    PartialWalkEntriesIn(src, w);
    if w != [] {
      var n := |w| - 1;
      var init := w[..n];
      var e := w[n];
      PartialWalkPrefix(src, w);
      UpdateWalkOrder(hash, src, init, rep);
      var prev := UpdateWalk(hash, src, init, rep);
      VisitEntryOrder(hash, src, e, prev.tree);
      var step := VisitEntry(hash, src, e, prev.tree);
      var log := prev.log + step.log;
      assert UpdateWalk(hash, src, w, rep).log == log;
      LastRootFresh(src, w);
      RootsParentClosed(init);
      RootsSnoc(w);
      NothingInsideNewDir(prev.log, Roots(init), e.root);
      OrderedConcat(prev.log, step.log, e.root);
    }
  }

  // ---------------------------------------------------------------------------
  // create_or_update
  // ---------------------------------------------------------------------------

  /** `create_or_update(source, replica)` on a top-down walk `w` of the
      source. */
  function CreateOrUpdate(hash: Bytes -> Digest, src: Tree, w: seq<WalkEntry>, rep: Tree): (r: Outcome)
    requires WellFormed(src) && WellFormed(rep) && KindsAgree(src, rep) && IsWalk(src, w)
    // every source directory and file now has a counterpart of the same kind,
    // files with the source's fingerprint
    ensures forall p | p in src :: p in r.tree && r.tree[p].Dir? == src[p].Dir?
    ensures forall p | p in src && src[p].File? :: hash(r.tree[p].content) == hash(src[p].content)
    // a matching replica node is left exactly as it was
    ensures forall p | p in src && p in rep && SameFingerprint(hash, src[p], rep[p]) :: r.tree[p] == rep[p]
    // nothing is removed; only source nodes are added or written over files
    ensures OnlyAddsOrOverwrites(src, rep, r.tree)
    ensures forall p | p in r.tree :: p in rep || p in src
    // one record per directory created and per file copied, and no other
    ensures Distinct(r.log)
    ensures forall p | p in src && src[p].Dir? :: CreatedDir(p) in r.log <==> p !in rep
    ensures forall p | p in src && src[p].File? ::
              CopiedFile(p) in r.log <==> (p !in rep || hash(src[p].content) != hash(rep[p].content))
    ensures forall e | e in r.log :: !e.IsDeletion() && e.path in src
    ensures r.tree == Settled(hash, src, rep, src.Keys)
    ensures LogsExactly(r.log, Actions(hash, src, rep, src.Keys))
    ensures WellFormed(r.tree) && KindsAgree(src, r.tree)
    // a directory's creation is logged before anything directly inside it
    ensures ParentsLoggedFirst(r.log)
  {
    UpdateWalkOrder(hash, src, w, rep);
    UpdateWalkSettles(hash, src, w, rep);
    WalkCoversTree(src, w);
    SettledPathwise(hash, src, rep);
    ActionsPathwise(hash, src, rep);
    UpdateWalk(hash, src, w, rep)
  }
}
