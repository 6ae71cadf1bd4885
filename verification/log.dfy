/** The engine's log stream, reduced to what it records: which kind of mutating
    action happened and at which path. Timestamps, severity and message
    formatting are not modelled. */
module SyncLog {
  import opened FileTree

  /** One log record. Paths are relative to the replica root; for a copy the
      same relative path also names the source file. */
  datatype Event =
    | CreatedDir(path: Path)
    | CopiedFile(path: Path)
    | DeletedDir(path: Path)
    | DeletedFile(path: Path)
  {
    predicate IsDeletion() {
      DeletedDir? || DeletedFile?
    }
  }

  /** A replica tree together with the events emitted while producing it. */
  datatype Outcome = Outcome(tree: Tree, log: seq<Event>)

  /** Every logged creation of a directory comes before every logged
      creation or copy directly inside that directory. */
  ghost predicate ParentsLoggedFirst(log: seq<Event>) {
    forall i, j | 0 <= i < |log| && 0 <= j < |log| && log[i].CreatedDir? && !log[j].IsDeletion()
                  && log[j].path != [] && Parent(log[j].path) == log[i].path :: i < j
  }

  /** `log` records every event of `s` exactly once and nothing else. */
  ghost predicate LogsExactly(log: seq<Event>, s: set<Event>) {
    && Distinct(log)
    && forall e :: e in log <==> e in s
  }

  /** Two exact logs of disjoint event sets concatenate to an exact log of
      their union. */
  lemma ConcatLogs(a: seq<Event>, b: seq<Event>, sa: set<Event>, sb: set<Event>)
    requires LogsExactly(a, sa) && LogsExactly(b, sb) && sa !! sb
    ensures LogsExactly(a + b, sa + sb)
  {
    var ab := a + b;
    forall i, j | 0 <= i < j < |ab|
      ensures ab[i] != ab[j]
    {
      if j < |a| {
        assert ab[i] == a[i] && ab[j] == a[j];
      } else if i >= |a| {
        assert ab[i] == b[i - |a|] && ab[j] == b[j - |a|];
      } else {
        assert ab[i] == a[i] && ab[j] == b[j - |a|];
        assert ab[i] in sa && ab[j] in sb;
      }
    }
  }

  /** The first event of a log is in it. */
  lemma FirstLogged(log: seq<Event>)
    ensures log != [] ==> log[0] in log
    ensures |log| > 1 ==> log[1] in log
  {
  }

  /** A log that records nothing is empty. */
  lemma EmptyLog(log: seq<Event>)
    requires forall e :: e !in log
    ensures log == []
  {
    FirstLogged(log);
  }

  /** An exact log of one event consists of that event alone. */
  lemma SingleLog(log: seq<Event>, e: Event)
    requires LogsExactly(log, {e})
    ensures log == [e]
  {
    assert e in log;
    FirstLogged(log);
    assert |log| == 1;
    assert log[0] in log;
  }
}
