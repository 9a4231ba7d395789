/**
 The db_version clock of one connection: the cached version, the version pending in the current
 transaction, and the check of PRAGMA data_version that decides when the cache is read again.
 */
module VersionClock {

  const NOTSET: int := -1

  /**
   `dbVersion`, `pending` and `dataVersion` are the fields of the extension's context. The rest is the
   database: `stored`, the greatest committed db_version; `written`, the greatest one written by the open
   transaction (0 for none); `fileVersion`, what PRAGMA data_version answers, which moves exactly when
   another connection commits.
   */
  datatype Clock = Clock(dbVersion: int, pending: int, dataVersion: int, stored: int, written: int, fileVersion: int)

  function Max(a: int, b: int): int {
    if a > b then a else b
  }

  /** db_version_check_uptodate; the MAX query sees the open transaction's own rows. */
  function CheckUptodate(c: Clock): Clock {
    if c.dbVersion != NOTSET && c.dataVersion == c.fileVersion then c
    else c.(dataVersion := c.fileVersion, dbVersion := Max(c.stored, c.written))
  }

  /** The version db_version_next hands out. */
  function Handed(c: Clock, merging: int): int {
    var u := CheckUptodate(c);
    var r := Max(u.dbVersion + 1, u.pending);
    if merging != NOTSET then Max(r, merging) else r
  }

  function Next(c: Clock, merging: int): Clock {
    CheckUptodate(c).(pending := Handed(c, merging))
  }

  /** A row stamped `v` is written by the open transaction. */
  function Write(c: Clock, v: int): Clock {
    c.(written := Max(c.written, v))
  }

  function Commit(c: Clock): Clock {
    c.(dbVersion := c.pending, pending := NOTSET, stored := Max(c.stored, c.written), written := 0)
  }

  function Rollback(c: Clock): Clock {
    c.(pending := NOTSET, written := 0)
  }

  /** Another connection commits rows up to version `v`. */
  function OtherCommit(c: Clock, v: int): Clock {
    c.(stored := Max(c.stored, v), fileVersion := c.fileVersion + 1)
  }

  /** A connection just opened on a file whose greatest version is `stored`: every field is zero. */
  function Opened(stored: int, fileVersion: int): Clock {
    Clock(0, 0, 0, stored, 0, fileVersion)
  }

  class Connection {
    var dbVersion: int
    var pendingDbVersion: int
    var dataVersion: int

    constructor ()
      ensures dbVersion == 0 && pendingDbVersion == 0 && dataVersion == 0
    {
      dbVersion, pendingDbVersion, dataVersion := 0, 0, 0;
    }

    /** The connection's fields beside a given state of the database. */
    ghost function On(stored: int, written: int, fileVersion: int): Clock
      reads this
    {
      Clock(dbVersion, pendingDbVersion, dataVersion, stored, written, fileVersion)
    }

    /** Afterwards the cache has caught up with the file, unless it was taken for fresh and was not. */
    method DbVersionCheckUptodate(stored: int, written: int, fileVersion: int)
      modifies this
      ensures dataVersion == fileVersion && pendingDbVersion == old(pendingDbVersion)
      ensures dbVersion >= stored <==> Fresh(old(On(stored, written, fileVersion)))
      ensures On(stored, written, fileVersion) == CheckUptodate(old(On(stored, written, fileVersion)))
    {
      var changed := fileVersion != dataVersion;
      dataVersion := fileVersion;
      if dbVersion != NOTSET && !changed { return; }
      dbVersion := if stored > written then stored else written;
    }

    /** The version is new exactly if the cache was fresh, or what is pending or being merged is new. */
    method DbVersionNext(mergingVersion: int, stored: int, written: int, fileVersion: int) returns (result: int)
      modifies this
      ensures result > stored <==>
        || Fresh(old(On(stored, written, fileVersion)))
        || old(pendingDbVersion) > stored
        || (mergingVersion != NOTSET && mergingVersion > stored)
      ensures result == Handed(old(On(stored, written, fileVersion)), mergingVersion)
      ensures On(stored, written, fileVersion) == Next(old(On(stored, written, fileVersion)), mergingVersion)
    {
      DbVersionCheckUptodate(stored, written, fileVersion);
      result := dbVersion + 1;
      if result < pendingDbVersion { result := pendingDbVersion; }
      if mergingVersion != NOTSET && result < mergingVersion { result := mergingVersion; }
      pendingDbVersion := result;
    }

    /**
     The commit leaves a cache that may be used exactly if what was pending is unset, not behind, or due to
     be read again.
     */
    method CommitHook(ghost stored: int, ghost written: int, ghost fileVersion: int)
      modifies this
      ensures Fresh(On(Max(stored, written), 0, fileVersion)) <==> CommitGuard(old(On(stored, written, fileVersion)))
      ensures On(Max(stored, written), 0, fileVersion) == Commit(old(On(stored, written, fileVersion)))
    {
      dbVersion := pendingDbVersion;
      pendingDbVersion := NOTSET;
    }

    /** A rollback forgets what was handed out and keeps a good clock good. */
    method RollbackHook(ghost stored: int, ghost written: int, ghost fileVersion: int)
      modifies this
      ensures Good(old(On(stored, written, fileVersion))) ==> Good(On(stored, 0, fileVersion))
      ensures old(dbVersion) >= NOTSET && stored >= 0 ==>
        Handed(On(stored, 0, fileVersion), NOTSET) == CheckUptodate(old(On(stored, 0, fileVersion))).dbVersion + 1
      ensures On(stored, 0, fileVersion) == Rollback(old(On(stored, written, fileVersion)))
    {
      pendingDbVersion := NOTSET;
    }
  }

  // ---------- one call ----------

  /** The cache may be used: it will be read again, or it is not behind the file. */
  predicate Fresh(c: Clock) {
    c.dbVersion == NOTSET || c.dataVersion != c.fileVersion || c.dbVersion >= c.stored
  }

  ghost predicate Sane(c: Clock) {
    c.stored >= 0 && c.written >= 0 && c.dbVersion >= NOTSET && c.pending >= NOTSET
  }

  /** A version handed out is above everything committed if and only if one of its three sources is. */
  lemma HandedExactly(c: Clock, merging: int)
    requires Sane(c)
    ensures Handed(c, merging) > c.stored
      <==> Fresh(c) || c.pending > c.stored || (merging != NOTSET && merging > c.stored)
    ensures Handed(c, merging) >= c.pending
    ensures merging != NOTSET ==> Handed(c, merging) >= merging
  {
  }

  /** Asking again in the same transaction, for the same merged version, gives the same answer. */
  lemma NextIdempotent(c: Clock, merging: int, v: int)
    requires Sane(c) && c.stored <= v && v <= Handed(c, merging)
    ensures Handed(Write(Next(c, merging), v), merging) == Handed(c, merging)
  {
  }

  /** What a commit needs: nothing pending, or nothing pending that is behind the file and will be believed. */
  predicate CommitGuard(c: Clock) {
    c.pending == NOTSET || c.pending >= Max(c.stored, c.written) || c.dataVersion != c.fileVersion
  }

  /** The guard is exact: without it the next version handed out is not new. */
  lemma CommitExactly(c: Clock)
    requires Sane(c)
    ensures Fresh(Commit(c)) <==> CommitGuard(c)
    ensures Handed(Commit(c), NOTSET) > Commit(c).stored <==> CommitGuard(c)
  {
    HandedExactly(Commit(c), NOTSET);
  }

  /**
   After a plain read of the version a commit is safe exactly if nothing is pending or what is pending is
   not behind.
   */
  lemma ReadExactly(c: Clock)
    requires Good(c)
    ensures Good(CheckUptodate(c))
    ensures CommitGuard(CheckUptodate(c)) <==> c.pending == NOTSET || c.pending >= c.stored
  {
  }

  // ---------- runs ----------

  datatype Step =
    | StepNext(merging: int, writes: bool)
    | StepRead
    | StepCommit
    | StepRollback
    | StepOther(v: int)

  function Take(c: Clock, s: Step): Clock {
    match s
    case StepNext(merging, writes) =>
      var n := Next(c, merging);
      if writes then Write(n, Handed(c, merging)) else n
    case StepRead => CheckUptodate(c)
    case StepCommit => Commit(c)
    case StepRollback => Rollback(c)
    case StepOther(v) => OtherCommit(c, v)
  }

  /** What SQLite allows: no other connection commits while rows of ours are written but not committed. */
  predicate Possible(c: Clock, s: Step) {
    match s
    case StepOther(v) => c.written == 0
    case StepNext(merging, _) => merging >= NOTSET
    case _ => true
  }

  /** What the property needs of a step: a commit meets its guard. */
  predicate Guarded(c: Clock, s: Step) {
    s.StepCommit? ==> CommitGuard(c)
  }

  ghost predicate Good(c: Clock) {
    && Sane(c) && Fresh(c)
    && c.dataVersion <= c.fileVersion
    && (c.written > 0 ==> c.pending >= c.written && c.pending > c.stored)
  }

  lemma TakeKeeps(c: Clock, s: Step)
    requires Good(c) && Possible(c, s)
    ensures Good(Take(c, s)) <==> Guarded(c, s)
    ensures Take(c, s).stored >= c.stored
  {
  }

  lemma TakeSane(c: Clock, s: Step)
    requires Sane(c) && Possible(c, s)
    ensures Sane(Take(c, s)) && Take(c, s).stored >= c.stored
  {
  }

  ghost predicate History(clocks: seq<Clock>, steps: seq<Step>) {
    && |clocks| == |steps| + 1
    && (exists stored, file :: stored >= 0 && file >= 1 && clocks[0] == Opened(stored, file))
    && forall i :: 0 <= i < |steps| ==> Possible(clocks[i], steps[i]) && clocks[i + 1] == Take(clocks[i], steps[i])
  }

  lemma {:induction false} HistorySane(clocks: seq<Clock>, steps: seq<Step>, i: nat)
    requires History(clocks, steps) && i < |clocks|
    ensures Sane(clocks[i])
    ensures forall j :: 0 <= j <= i ==> clocks[j].stored <= clocks[i].stored
  {
    if i > 0 {
      HistorySane(clocks, steps, i - 1);
      TakeSane(clocks[i - 1], steps[i - 1]);
    }
  }

  /** The invariant holds as long as every commit so far met its guard; reads and rollbacks are free. */
  lemma {:induction false} HistoryGood(clocks: seq<Clock>, steps: seq<Step>, i: nat)
    requires History(clocks, steps) && i < |clocks|
    requires forall k :: 0 <= k < i ==> Guarded(clocks[k], steps[k])
    ensures Good(clocks[i])
  {
    if i > 0 {
      HistoryGood(clocks, steps, i - 1);
      TakeKeeps(clocks[i - 1], steps[i - 1]);
    }
  }

  /**
   Safety over every history whose commits so far met their guard: a version handed out exceeds every version
   committed before it by anyone, and is not below any version already pending in its transaction.
   */
  lemma HandedIsNew(clocks: seq<Clock>, steps: seq<Step>, i: nat, j: nat, merging: int)
    requires History(clocks, steps) && j <= i < |clocks| && merging >= NOTSET
    requires forall k :: 0 <= k < i ==> Guarded(clocks[k], steps[k])
    ensures Handed(clocks[i], merging) > clocks[j].stored && Handed(clocks[i], merging) >= clocks[i].pending
  {
    HistoryGood(clocks, steps, i);
    HistorySane(clocks, steps, i);
    HandedExactly(clocks[i], merging);
  }

  /**
   Over every history: a local statement would at all times be handed a new version if and only if every
   commit met its guard.
   */
  lemma HandedIsNewExactly(clocks: seq<Clock>, steps: seq<Step>)
    requires History(clocks, steps)
    ensures (forall i :: 0 <= i < |clocks| ==> Handed(clocks[i], NOTSET) > clocks[i].stored)
      <==> (forall k :: 0 <= k < |steps| ==> Guarded(clocks[k], steps[k]))
  {
    if forall k :: 0 <= k < |steps| ==> Guarded(clocks[k], steps[k]) {
      forall i | 0 <= i < |clocks| ensures Handed(clocks[i], NOTSET) > clocks[i].stored {
        HandedIsNew(clocks, steps, i, i, NOTSET);
      }
    } else {
      var k :| 0 <= k < |steps| && !Guarded(clocks[k], steps[k]);
      HistorySane(clocks, steps, k);
      CommitExactly(clocks[k]);
      assert clocks[k + 1] == Commit(clocks[k]);
    }
  }

  /** Within one transaction handed-out versions never decrease: they are what is pending. */
  lemma {:induction false} PendingGrows(clocks: seq<Clock>, steps: seq<Step>, i: nat, j: nat)
    requires History(clocks, steps) && i <= j < |clocks|
    requires forall k :: i <= k < j ==> !steps[k].StepCommit? && !steps[k].StepRollback?
    ensures clocks[i].pending <= clocks[j].pending
    decreases j
  {
    if i < j {
      PendingGrows(clocks, steps, i, j - 1);
      if steps[j - 1].StepNext? {
        HistorySane(clocks, steps, j - 1);
        HandedExactly(clocks[j - 1], steps[j - 1].merging);
      }
    }
  }

  /**
   A commit that does not meet its guard: a fresh connection on a file at version 10 reads the version, commits
   a transaction that handed nothing out, and then hands out 1. If it writes between the two, all is well.
   */
  lemma ReadThenCommitForgets()
    ensures var read := CheckUptodate(Opened(10, 1));
      && read.dbVersion == 10 && !CommitGuard(read) && Handed(Commit(read), NOTSET) == 1
      && Handed(read, NOTSET) == 11
      && CommitGuard(Write(Next(read, NOTSET), 11)) && Handed(Commit(Write(Next(read, NOTSET), 11)), NOTSET) == 12
  {
  }
}
