/** `sync_directories`: make sure the replica root exists, then run the
    create/update pass over the source and the prune pass over the replica,
    in that order. The walk of the source lists paths in the order
    `srcOrder`, the walk of the replica in the order `repOrder`; the two are
    independent, as the two directories are listed separately. */
module Sync {
  import opened FileTree
  import opened Walking
  import opened SyncLog
  import opened UpdatePass
  import opened PrunePass

  /** What a synchronisation may assume of its inputs: two real trees whose
      shared paths hold nodes of one kind, a listing order for the source's
      paths, and a listing order for every path the replica may come to
      hold. */
  ghost predicate SyncInputs(src: Tree, rep: Tree, srcOrder: seq<Path>, repOrder: seq<Path>) {
    && WellFormed(src) && WellFormed(rep) && KindsAgree(src, rep)
    && ListingOrder(srcOrder, src.Keys)
    && ListingOrder(repOrder, src.Keys + rep.Keys + {[]})
  }

  /** `modules/sync.py` lines 74-76: create the replica root when it does not exist. */
  function EnsureRoot(rep: Tree): (r: Outcome)
    requires WellFormed(rep)
    ensures [] in r.tree && r.tree[[]] == Dir && WellFormed(r.tree)
    ensures forall p | p in rep :: p in r.tree && r.tree[p] == rep[p]
    ensures forall p | p in r.tree && p !in rep :: p == []
    ensures forall e :: e in r.log <==> [] !in rep && e == CreatedDir([])
    ensures Distinct(r.log)
  {
    if [] !in rep then Outcome(MakeDirs(rep, []), [CreatedDir([])]) else Outcome(rep, [])
  }

  /** The first pass may start on the replica with its root in place. */
  lemma RootReady(src: Tree, rep: Tree, srcOrder: seq<Path>, repOrder: seq<Path>)
    requires SyncInputs(src, rep, srcOrder, repOrder)
    ensures var t := EnsureRoot(rep).tree;
      && WellFormed(t) && KindsAgree(src, t)
      && ListingOrder(repOrder, src.Keys + t.Keys)
      && IsWalk(src, WalkTree(src, srcOrder))
  {
    WalkTreeIsWalk(src, srcOrder);
  }

  /** The second pass may start on whatever tree the first pass left. */
  lemma CreatedReady(src: Tree, t: Tree, created: Tree, order: seq<Path>)
    requires WellFormed(created) && ListingOrder(order, src.Keys + t.Keys)
    requires forall p | p in created :: p in t || p in src
    ensures IsWalk(created, WalkTree(created, order))
  {
    WalkTreeIsWalk(created, order);
  }

  /** Pruning a tree that holds every source path, each of the source's
      kind, against a well-formed source leaves exactly the source paths. */
  lemma PruneLeavesSource(src: Tree, created: Tree, out: Tree)
    requires WellFormed(src)
    requires forall p | p in src :: p in created
    requires forall q :: q in out <==> q in created && Kept(src, q)
    ensures out.Keys == src.Keys
  {
    forall q | q in src
      ensures Kept(src, q)
    {
    }
  }

  /** `sync_directories(source, replica)` (`modules/sync.py` lines 74-78):
      make sure the replica root exists, run `create_or_update` on the walk
      of the source to completion, then `delete_files` on the walk of the
      replica as the first pass left it. */
  function SyncDirectories(hash: Bytes -> Digest, src: Tree, rep: Tree, srcOrder: seq<Path>, repOrder: seq<Path>): (r: Outcome)
    requires SyncInputs(src, rep, srcOrder, repOrder)
    // the replica ends with the source's paths, each of the source's kind,
    // files with the source's fingerprint
    ensures r.tree.Keys == src.Keys
    ensures forall p | p in src :: r.tree[p].Dir? == src[p].Dir?
    ensures forall p | p in src && src[p].File? :: hash(r.tree[p].content) == hash(src[p].content)
    // a replica node matching its source node is left exactly as it was
    ensures forall p | p in src && p in rep && SameFingerprint(hash, src[p], rep[p]) :: r.tree[p] == rep[p]
    // any other source path now holds the source's node
    ensures forall p | p in src && !(p in rep && SameFingerprint(hash, src[p], rep[p])) :: r.tree[p] == src[p]
    ensures WellFormed(r.tree)
  {
    var root := EnsureRoot(rep);
    RootReady(src, rep, srcOrder, repOrder);
    var created := CreateOrUpdate(hash, src, WalkTree(src, srcOrder), root.tree);
    CreatedReady(src, root.tree, created.tree, repOrder);
    var deleted := DeleteFiles(src, WalkTree(created.tree, repOrder), created.tree);
    PruneLeavesSource(src, created.tree, deleted.tree);
    Outcome(deleted.tree, root.log + created.log + deleted.log)
  }

  /** A log of non-deletions followed by a log of deletions has every
      deletion after every other record. */
  lemma DeletionsComeLast(a: seq<Event>, b: seq<Event>)
    requires forall e | e in a :: !e.IsDeletion()
    requires forall e | e in b :: e.IsDeletion()
    ensures forall i, j | 0 <= i < j < |a + b| && (a + b)[i].IsDeletion() :: (a + b)[j].IsDeletion()
  {
    forall k | 0 <= k < |a|
      ensures !(a + b)[k].IsDeletion()
    {
      assert (a + b)[k] == a[k];
    }
    forall i, j | 0 <= i < j < |a + b| && (a + b)[i].IsDeletion()
      ensures (a + b)[j].IsDeletion()
    {
      assert |a| <= i;
      assert (a + b)[j] == b[j - |a|];
    }
  }

  /** The three stages of `sync_directories` and what each leaves behind,
      in terms of the intended effects of the two passes. */
  lemma SyncStages(hash: Bytes -> Digest, src: Tree, rep: Tree, srcOrder: seq<Path>, repOrder: seq<Path>)
    returns (root: Outcome, created: Outcome, deleted: Outcome)
    requires SyncInputs(src, rep, srcOrder, repOrder)
    ensures SyncDirectories(hash, src, rep, srcOrder, repOrder) == Outcome(deleted.tree, root.log + created.log + deleted.log)
    ensures forall e :: e in root.log <==> [] !in rep && e == CreatedDir([])
    ensures root.log == if [] in rep then [] else [CreatedDir([])]
    ensures [] in root.tree && root.tree[[]] == Dir
    ensures forall p | p in rep :: p in root.tree && root.tree[p] == rep[p]
    ensures forall p | p in root.tree && p !in rep :: p == []
    ensures KindsAgree(src, root.tree)
    ensures created.tree == Settled(hash, src, root.tree, src.Keys)
    ensures LogsExactly(created.log, Actions(hash, src, root.tree, src.Keys))
    ensures ParentsLoggedFirst(created.log)
    ensures forall q :: q in deleted.tree <==> q in created.tree && Kept(src, q)
    ensures LogsExactly(deleted.log, Deletions(src, created.tree, created.tree.Keys))
  {
    root := EnsureRoot(rep);
    RootReady(src, rep, srcOrder, repOrder);
    created := CreateOrUpdate(hash, src, WalkTree(src, srcOrder), root.tree);
    CreatedReady(src, root.tree, created.tree, repOrder);
    deleted := DeleteFiles(src, WalkTree(created.tree, repOrder), created.tree);
  }

  /** The creations and copies in the concatenated log, from what each
      stage logs. */
  lemma CreationRecords(hash: Bytes -> Digest, src: Tree, rep: Tree, root: Outcome, created: seq<Event>,
                        pruned: Tree, deleted: seq<Event>)
    requires WellFormed(src)
    requires forall e :: e in root.log <==> [] !in rep && e == CreatedDir([])
    requires [] in root.tree && root.tree[[]] == Dir
    requires forall p | p in rep :: p in root.tree && root.tree[p] == rep[p]
    requires forall p | p in root.tree && p !in rep :: p == []
    requires KindsAgree(src, root.tree)
    requires LogsExactly(created, Actions(hash, src, root.tree, src.Keys))
    requires LogsExactly(deleted, Deletions(src, pruned, pruned.Keys))
    ensures var log := root.log + created + deleted;
      && (forall p | p in src && src[p].Dir? :: CreatedDir(p) in log <==> p !in rep)
      && (forall p | p in src && src[p].File? ::
            CopiedFile(p) in log <==> (p !in rep || hash(src[p].content) != hash(rep[p].content)))
      && (forall ev | ev in log && !ev.IsDeletion() ::
            ev == CreatedDir([]) || (ev.path in src && ev == ActionFor(src, ev.path)))
  {
    ActionsPathwise(hash, src, root.tree);
    forall ev | ev in deleted
      ensures ev.IsDeletion()
    {
      assert ev in Deletions(src, pruned, pruned.Keys);
    }
    forall ev | ev in created
      ensures ev.path in src && ev == ActionFor(src, ev.path)
    {
      assert ev in Actions(hash, src, root.tree, src.Keys);
    }
  }

  /** The removals in the concatenated log, from what each stage logs. */
  lemma DeletionRecords(hash: Bytes -> Digest, src: Tree, rep: Tree, root: Outcome, created: Outcome,
                        deleted: seq<Event>)
    requires forall e :: e in root.log <==> [] !in rep && e == CreatedDir([])
    requires [] in root.tree && root.tree[[]] == Dir
    requires forall p | p in rep :: p in root.tree && root.tree[p] == rep[p]
    requires forall p | p in root.tree && p !in rep :: p == []
    requires created.tree == Settled(hash, src, root.tree, src.Keys)
    requires LogsExactly(created.log, Actions(hash, src, root.tree, src.Keys))
    requires LogsExactly(deleted, Deletions(src, created.tree, created.tree.Keys))
    ensures var log := root.log + created.log + deleted;
      && (forall q | q in rep && q !in src :: DeletionFor(rep, q) in log <==> AncestorsIn(src, q))
      && (DeletedDir([]) in log <==> [] !in src)
      && (forall ev | ev in log && ev.IsDeletion() :: ev.path !in src && (ev.path in rep || ev.path == []))
  {
    forall ev | ev in created.log
      ensures !ev.IsDeletion()
    {
      assert ev in Actions(hash, src, root.tree, src.Keys);
    }
    DeletionsPathwise(src, created.tree);
    forall q | q in rep && q !in src
      ensures q in created.tree && DeletionFor(created.tree, q) == DeletionFor(rep, q)
    {
    }
    forall ev | ev in deleted
      ensures ev.path !in src && ev.path in created.tree
    {
      assert ev in Deletions(src, created.tree, created.tree.Keys);
    }
  }

  /** The records of creations and copies `sync_directories` logs, path by
      path. */
  lemma SyncCreationLog(hash: Bytes -> Digest, src: Tree, rep: Tree, srcOrder: seq<Path>, repOrder: seq<Path>)
    requires SyncInputs(src, rep, srcOrder, repOrder)
    ensures var log := SyncDirectories(hash, src, rep, srcOrder, repOrder).log;
      && (forall p | p in src && src[p].Dir? :: CreatedDir(p) in log <==> p !in rep)
      && (forall p | p in src && src[p].File? ::
            CopiedFile(p) in log <==> (p !in rep || hash(src[p].content) != hash(rep[p].content)))
      && (forall ev | ev in log && !ev.IsDeletion() ::
            ev == CreatedDir([]) || (ev.path in src && ev == ActionFor(src, ev.path)))
  {
    var root, created, deleted := SyncStages(hash, src, rep, srcOrder, repOrder);
    CreationRecords(hash, src, rep, root, created.log, created.tree, deleted.log);
  }

  /** The records of removals `sync_directories` logs, path by path. */
  lemma SyncDeletionLog(hash: Bytes -> Digest, src: Tree, rep: Tree, srcOrder: seq<Path>, repOrder: seq<Path>)
    requires SyncInputs(src, rep, srcOrder, repOrder)
    ensures var log := SyncDirectories(hash, src, rep, srcOrder, repOrder).log;
      && (forall q | q in rep && q !in src :: DeletionFor(rep, q) in log <==> AncestorsIn(src, q))
      && (DeletedDir([]) in log <==> [] !in src)
      && (forall ev | ev in log && ev.IsDeletion() :: ev.path !in src && (ev.path in rep || ev.path == []))
  {
    var root, created, deleted := SyncStages(hash, src, rep, srcOrder, repOrder);
    DeletionRecords(hash, src, rep, root, created, deleted.log);
  }

  /** Putting records about the root before an ordered log, and removals
      after it, keeps each directory's creation before anything directly
      inside it. */
  lemma RootAroundOrdered(root: seq<Event>, created: seq<Event>, deleted: seq<Event>)
    requires forall ev | ev in root :: ev.path == []
    requires ParentsLoggedFirst(created)
    requires forall ev | ev in deleted :: ev.IsDeletion()
    ensures ParentsLoggedFirst(root + created + deleted)
  {
    var log := root + created + deleted;
    forall k | 0 <= k < |root|
      ensures log[k] == root[k] && log[k].path == []
    {
      assert root[k] in root;
    }
    forall k | |root| <= k < |root| + |created|
      ensures log[k] == created[k - |root|]
    {
    }
    forall k | |root| + |created| <= k < |log|
      ensures log[k] == deleted[k - |root| - |created|] && log[k].IsDeletion()
    {
      assert deleted[k - |root| - |created|] in deleted;
    }
  }

  /** The order of the concatenated log, from what each stage logs. */
  lemma RecordOrder(hash: Bytes -> Digest, src: Tree, rep: Tree, root: Outcome, created: seq<Event>,
                    pruned: Tree, deleted: seq<Event>)
    requires WellFormed(src) && KindsAgree(src, root.tree)
    requires root.log == if [] in rep then [] else [CreatedDir([])]
    requires [] in root.tree && root.tree[[]] == Dir
    requires LogsExactly(created, Actions(hash, src, root.tree, src.Keys))
    requires LogsExactly(deleted, Deletions(src, pruned, pruned.Keys))
    requires ParentsLoggedFirst(created)
    ensures var log := root.log + created + deleted;
      && (CreatedDir([]) in log <==> [] !in rep)
      && ([] !in rep ==> log[0] == CreatedDir([]))
      && (forall i, j | 0 <= i < j < |log| && log[i].IsDeletion() :: log[j].IsDeletion())
      && Distinct(log)
      && ParentsLoggedFirst(log)
  {
    var acts := Actions(hash, src, root.tree, src.Keys);
    var dels := Deletions(src, pruned, pruned.Keys);
    forall ev | ev in created
      ensures !ev.IsDeletion() && ev != CreatedDir([])
    {
      assert ev in acts;
    }
    forall ev | ev in deleted
      ensures ev.IsDeletion()
    {
      assert ev in dels;
    }
    DeletionsComeLast(root.log + created, deleted);
    RootAroundOrdered(root.log, created, deleted);
    var s0: set<Event> := if [] in rep then {} else {CreatedDir([])};
    ConcatLogs(root.log, created, s0, acts);
    ConcatLogs(root.log + created, deleted, s0 + acts, dels);
  }

  /** `sync_directories` logs the creation of the replica root first, and
      only when the root is missing; it logs nothing of the prune pass
      before the update pass is over; and it logs no record twice. */
  lemma SyncLogOrder(hash: Bytes -> Digest, src: Tree, rep: Tree, srcOrder: seq<Path>, repOrder: seq<Path>)
    requires SyncInputs(src, rep, srcOrder, repOrder)
    ensures var log := SyncDirectories(hash, src, rep, srcOrder, repOrder).log;
      && (CreatedDir([]) in log <==> [] !in rep)
      && ([] !in rep ==> log[0] == CreatedDir([]))
      && (forall i, j | 0 <= i < j < |log| && log[i].IsDeletion() :: log[j].IsDeletion())
      && Distinct(log)
      && ParentsLoggedFirst(log)
  {
    var root, created, deleted := SyncStages(hash, src, rep, srcOrder, repOrder);
    RecordOrder(hash, src, rep, root, created.log, created.tree, deleted.log);
  }

  /** The replica's files never share a fingerprint with the source file at
      the same path without sharing its content. */
  ghost predicate NoCollisions(hash: Bytes -> Digest, src: Tree, rep: Tree) {
    forall p | p in src && p in rep && src[p].File? && rep[p].File? && hash(src[p].content) == hash(rep[p].content) ::
      src[p].content == rep[p].content
  }

  /** When fingerprints do not collide, the replica ends as a copy of the
      source. */
  lemma SyncConverges(hash: Bytes -> Digest, src: Tree, rep: Tree, srcOrder: seq<Path>, repOrder: seq<Path>)
    requires SyncInputs(src, rep, srcOrder, repOrder) && NoCollisions(hash, src, rep)
    ensures SyncDirectories(hash, src, rep, srcOrder, repOrder).tree == src
  {
    CopyOfSource(hash, src, rep, SyncDirectories(hash, src, rep, srcOrder, repOrder).tree);
  }

  /** A tree over the source's paths holding, at each, either the source's
      node or a matching replica node, is the source when fingerprints do not
      collide. */
  lemma CopyOfSource(hash: Bytes -> Digest, src: Tree, rep: Tree, r: Tree)
    requires NoCollisions(hash, src, rep) && r.Keys == src.Keys
    requires forall p | p in src && p in rep && SameFingerprint(hash, src[p], rep[p]) :: r[p] == rep[p]
    requires forall p | p in src && !(p in rep && SameFingerprint(hash, src[p], rep[p])) :: r[p] == src[p]
    ensures r == src
  {
    forall p | p in src
      ensures r[p] == src[p]
    {
      if p in rep && SameFingerprint(hash, src[p], rep[p]) && src[p].File? {
        assert src[p].content == rep[p].content;
      }
    }
  }

  /** A run on a replica that already mirrors the source logs nothing. */
  lemma QuietRecords(hash: Bytes -> Digest, src: Tree, once: Tree, log: seq<Event>)
    requires WellFormed(src) && [] in src && once.Keys == src.Keys
    requires forall p | p in src :: once[p].Dir? == src[p].Dir?
    requires forall p | p in src && src[p].File? :: hash(once[p].content) == hash(src[p].content)
    requires forall p | p in src && src[p].Dir? :: CreatedDir(p) in log <==> p !in once
    requires forall p | p in src && src[p].File? ::
               CopiedFile(p) in log <==> (p !in once || hash(src[p].content) != hash(once[p].content))
    requires forall ev | ev in log && !ev.IsDeletion() ::
               ev == CreatedDir([]) || (ev.path in src && ev == ActionFor(src, ev.path))
    requires forall ev | ev in log && ev.IsDeletion() :: ev.path !in src && (ev.path in once || ev.path == [])
    ensures log == []
  {
    assert CreatedDir([]) !in log;
    forall ev
      ensures ev !in log
    {
      if ev.IsDeletion() {
        assert ev.path in once <==> ev.path in src;
      } else if ev.path in src {
        var p := ev.path;
        assert src[p].Dir? ==> CreatedDir(p) !in log;
        assert src[p].File? ==> CopiedFile(p) !in log;
      }
    }
    EmptyLog(log);
  }

  /** `t` holds exactly the source's paths, each of the source's kind,
      files with the source's fingerprint. */
  ghost predicate Mirrors(hash: Bytes -> Digest, src: Tree, t: Tree) {
    && t.Keys == src.Keys
    && (forall p | p in src :: t[p].Dir? == src[p].Dir?)
    && (forall p | p in src && src[p].File? :: hash(t[p].content) == hash(src[p].content))
  }

  /** A tree that keeps every node matching the source, over the source's
      paths, equals a tree that mirrors the source. */
  lemma MatchingKept(hash: Bytes -> Digest, src: Tree, once: Tree, twice: Tree)
    requires Mirrors(hash, src, once) && twice.Keys == src.Keys
    requires forall p | p in src && p in once && SameFingerprint(hash, src[p], once[p]) :: twice[p] == once[p]
    ensures twice == once
  {
    forall p | p in src
      ensures SameFingerprint(hash, src[p], once[p])
    {
    }
  }

  /** A run on a replica that mirrors the source leaves it as it is. */
  lemma RerunKeepsTree(hash: Bytes -> Digest, src: Tree, once: Tree, srcOrder: seq<Path>, repOrder: seq<Path>)
    requires SyncInputs(src, once, srcOrder, repOrder) && Mirrors(hash, src, once)
    ensures SyncDirectories(hash, src, once, srcOrder, repOrder).tree == once
  {
    MatchingKept(hash, src, once, SyncDirectories(hash, src, once, srcOrder, repOrder).tree);
  }

  /** A run on a replica that mirrors the source logs nothing. */
  lemma RerunLogsNothing(hash: Bytes -> Digest, src: Tree, once: Tree, srcOrder: seq<Path>, repOrder: seq<Path>)
    requires SyncInputs(src, once, srcOrder, repOrder) && Mirrors(hash, src, once) && [] in src
    ensures SyncDirectories(hash, src, once, srcOrder, repOrder).log == []
  {
    SyncCreationLog(hash, src, once, srcOrder, repOrder);
    SyncDeletionLog(hash, src, once, srcOrder, repOrder);
    QuietRecords(hash, src, once, SyncDirectories(hash, src, once, srcOrder, repOrder).log);
  }

  /** A tree over the source's paths with the source's kinds may be
      synchronised again, with any listing orders of the source's paths. */
  lemma MirrorIsInput(src: Tree, t: Tree, srcOrder: seq<Path>, repOrder: seq<Path>)
    requires WellFormed(src) && [] in src && WellFormed(t) && t.Keys == src.Keys
    requires forall p | p in src :: t[p].Dir? == src[p].Dir?
    requires ListingOrder(srcOrder, src.Keys) && ListingOrder(repOrder, src.Keys)
    ensures SyncInputs(src, t, srcOrder, repOrder)
  {
    assert src.Keys + t.Keys + {[]} == src.Keys;
  }

  /** Synchronising again straight away changes nothing and logs nothing,
      whether or not fingerprints collide and whatever order either
      directory is listed in the second time, as long as the source root
      exists. */
  lemma SyncIdempotent(hash: Bytes -> Digest, src: Tree, rep: Tree, srcOrder: seq<Path>, repOrder: seq<Path>,
                       nextSrcOrder: seq<Path>, nextRepOrder: seq<Path>)
    requires SyncInputs(src, rep, srcOrder, repOrder) && [] in src
    requires ListingOrder(nextSrcOrder, src.Keys) && ListingOrder(nextRepOrder, src.Keys)
    ensures var once := SyncDirectories(hash, src, rep, srcOrder, repOrder);
      && SyncInputs(src, once.tree, nextSrcOrder, nextRepOrder)
      && SyncDirectories(hash, src, once.tree, nextSrcOrder, nextRepOrder) == Outcome(once.tree, [])
  {
    var once := SyncDirectories(hash, src, rep, srcOrder, repOrder).tree;
    MirrorIsInput(src, once, nextSrcOrder, nextRepOrder);
    assert Mirrors(hash, src, once);
    RerunKeepsTree(hash, src, once, nextSrcOrder, nextRepOrder);
    RerunLogsNothing(hash, src, once, nextSrcOrder, nextRepOrder);
  }

  /** Without a source root, the passes leave nothing: the update pass acts
      nowhere and the prune pass removes the root alone. */
  lemma RootlessRecords(hash: Bytes -> Digest, src: Tree, root: Tree, created: Outcome, deleted: Outcome)
    requires WellFormed(src) && [] !in src
    requires [] in root && root[[]] == Dir
    requires created.tree == Settled(hash, src, root, src.Keys)
    requires LogsExactly(created.log, Actions(hash, src, root, src.Keys))
    requires forall q :: q in deleted.tree <==> q in created.tree && Kept(src, q)
    requires LogsExactly(deleted.log, Deletions(src, created.tree, created.tree.Keys))
    ensures deleted.tree == map[] && created.log == [] && deleted.log == [DeletedDir([])]
  {
    RootlessIsEmpty(src);
    assert Actions(hash, src, root, src.Keys) == {};
    EmptyLog(created.log);
    assert Deletions(src, created.tree, created.tree.Keys) == {DeletedDir([])} by {
      assert [] in created.tree && created.tree[[]] == Dir;
      forall q | q in created.tree && q != []
        ensures !AncestorsIn(src, q)
      {
        assert q[..0] == [];
      }
    }
    SingleLog(deleted.log, DeletedDir([]));
  }

  /** Without a source root, the replica root itself is removed: the replica
      ends empty, having logged its root's creation when it was missing and
      then its removal. */
  lemma SyncMissingSource(hash: Bytes -> Digest, src: Tree, rep: Tree, srcOrder: seq<Path>, repOrder: seq<Path>)
    requires SyncInputs(src, rep, srcOrder, repOrder) && [] !in src
    ensures SyncDirectories(hash, src, rep, srcOrder, repOrder)
         == Outcome(map[], (if [] in rep then [] else [CreatedDir([])]) + [DeletedDir([])])
  {
    var root, created, deleted := SyncStages(hash, src, rep, srcOrder, repOrder);
    RootlessRecords(hash, src, root.tree, created, deleted);
  }
}
