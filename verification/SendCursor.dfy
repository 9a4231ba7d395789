/**
 Sending changes: a replica, its version clock and the stored (db_version, seq) cursor, run together.
 Nothing the replica changed itself is lost, whichever network call fails and whatever other connections
 commit while the calls are under way.
 */
module SendCursor {
  import opened Values
  import opened Wrappers
  import opened Replica
  import opened VersionClock
  import Provenance

  /** The meta entry under (p, n). */
  predicate HasEntry(db: Db, p: Pk, n: Name) {
    n in MetaAt(db, p)
  }

  function EntryAt(db: Db, p: Pk, n: Name): Entry
    requires HasEntry(db, p, n)
  {
    MetaAt(db, p)[n]
  }

  /** Every entry is an old one or carries version `v`, and if anything changed, some entry carries `v`. */
  ghost predicate Stamps(was: Db, now: Db, v: int) {
    && (forall p, n :: HasEntry(now, p, n) ==>
          (HasEntry(was, p, n) && EntryAt(was, p, n) == EntryAt(now, p, n)) || EntryAt(now, p, n).dbVersion == v)
    && ((forall p :: MetaAt(now, p) == MetaAt(was, p))
        || (exists p, n :: HasEntry(now, p, n) && EntryAt(now, p, n).dbVersion == v))
  }

  /** `m` is what SELECT max(db_version) finds: the greatest version of any entry, 0 when there is none. */
  ghost predicate IsMax(db: Db, m: int) {
    && (forall p, n :: HasEntry(db, p, n) ==> EntryAt(db, p, n).dbVersion <= m)
    && (m == 0 || exists p, n :: HasEntry(db, p, n) && EntryAt(db, p, n).dbVersion == m)
  }

  // ---------- every operation stamps what it touches ----------

  ghost predicate RowStamps(was: RowMeta, now: RowMeta, v: int) {
    && (forall n <- now :: (n in was && was[n] == now[n]) || now[n].dbVersion == v)
    && (now == was || exists n <- now :: now[n].dbVersion == v)
  }

  lemma {:induction false} MarkStamps(s: Schema, m: RowMeta, names: seq<Name>, v: int, q: int)
    ensures RowStamps(m, MarkColumns(s, m, names, v, q), v)
    ensures names == [] ==> MarkColumns(s, m, names, v, q) == m
    ensures names != [] ==>
      exists n <- MarkColumns(s, m, names, v, q) :: MarkColumns(s, m, names, v, q)[n].dbVersion == v
    decreases |names|
  {
    if names != [] {
      var k := |names| - 1;
      MarkStamps(s, m, names[..k], v, q);
      assert names[k] in MarkColumns(s, m, names, v, q);
    }
  }

  lemma StampsTwice(a: RowMeta, b: RowMeta, c: RowMeta, v: int)
    requires RowStamps(a, b, v) && RowStamps(b, c, v)
    requires (exists n <- b :: b[n].dbVersion == v) && c != b ==> exists n <- c :: c[n].dbVersion == v
    ensures RowStamps(a, c, v)
  {
  }

  lemma InsertStamps(s: Schema, m: RowMeta, v: int, q: int)
    requires SchemaOk(s)
    ensures RowStamps(m, InsertMeta(s, m, v, q), v)
  {
    if s.cols == [] {
      assert SENTINEL in SentinelInsert(s, m, v, q);
    } else if m != map[] {
      var m1 := SentinelUpdate(s, m, v, q);
      if SENTINEL in m { assert SENTINEL in m1 && m1[SENTINEL].dbVersion == v; }
      MarkStamps(s, m1, s.cols, v, q + 1);
      StampsTwice(m, m1, MarkColumns(s, m1, s.cols, v, q + 1), v);
    } else {
      MarkStamps(s, m, s.cols, v, q);
    }
  }

  lemma DeleteStamps(s: Schema, m: RowMeta, v: int, q: int)
    ensures RowStamps(m, DeleteMeta(s, m, v, q), v)
  {
    assert SENTINEL in DeleteMeta(s, m, v, q);
  }

  lemma MoveInStamps(s: Schema, target: RowMeta, source: RowMeta, changed: seq<Name>, v: int, q: int,
                     moveSeq: Name -> int)
    ensures RowStamps(target, MarkColumns(s, MoveInMeta(s, target, source, v, q, moveSeq), changed, v, q + 1), v)
  {
    var moved := MoveInMeta(s, target, source, v, q, moveSeq);
    assert SENTINEL in moved && moved[SENTINEL].dbVersion == v;
    MarkStamps(s, moved, changed, v, q + 1);
  }

  lemma ClockStamps(m: RowMeta, m': RowMeta, name: Name, version: int, v: int, ch: Change)
    requires forall n <- m' :: (n in m && m[n] == m'[n]) || m'[n].dbVersion == v
    ensures RowStamps(m, WinnerClock(m', name, version, v, ch), v)
  {
    assert name in WinnerClock(m', name, version, v, ch);
  }

  lemma DropStamps(m: RowMeta, version: int, v: int, ch: Change)
    ensures RowStamps(m, RowDrop(WinnerClock(m, SENTINEL, version, v, ch)), v)
    ensures RowStamps(m, m, v)
  {
    assert SENTINEL in RowDrop(WinnerClock(m, SENTINEL, version, v, ch));
  }

  lemma ResurrectStamps(m: RowMeta, version: int, v: int, ch: Change)
    ensures var up := WinnerClock(ZeroClock(m, v), SENTINEL, version, v, ch);
      RowStamps(m, up, v) && RowStamps(m, WinnerClock(up, ch.name, ch.colVersion, v, ch), v)
  {
    var zeroed := ZeroClock(m, v);
    assert forall n <- zeroed :: (n in m && m[n] == zeroed[n]) || zeroed[n].dbVersion == v;
    ClockStamps(m, zeroed, SENTINEL, version, v, ch);
    ClockStamps(m, WinnerClock(zeroed, SENTINEL, version, v, ch), ch.name, ch.colVersion, v, ch);
  }

  lemma MergeStamps(s: Schema, m: RowMeta, shown: Option<RowValues>, ch: Change, v: int)
    requires WellFormed(s, ch)
    ensures RowStamps(m, MergeMeta(m, shown, ch, v), v)
  {
    ClockStamps(m, m, ch.name, ch.colVersion, v, ch);
    hide Writes, Resurrects, CausalLength, RowStamps, RowDrop, WinnerClock, ZeroClock;
    ResurrectStamps(m, ch.cl, v, ch);
    DropStamps(m, ch.colVersion, v, ch);
  }

  /** Each operation stamps every entry it touches with the version it was handed. */
  lemma ApplyStamps(s: Schema, db: Db, op: Op, v: int, q: int)
    requires SchemaOk(s) && OpOk(s, op)
    ensures Stamps(db, Apply(s, db, op, v, q), v)
  {
    hide MergeDb, MarkColumns, InsertMeta, DeleteMeta, MoveInMeta, ChangedColumns, RowStamps;
    var db' := Apply(s, db, op, v, q);
    forall p ensures RowStamps(MetaAt(db, p), MetaAt(db', p), v) {
      RowAtStamps(s, db, op, v, q, p);
    }
    RowsStamp(db, db', v);
  }

  /** What a local statement changes is this site's own, with a place among the changes of its version. */
  lemma LocalIsOwn(s: Schema, db: Db, op: Op, v: int, q: int, p: Pk, n: Name)
    requires SchemaOk(s) && !op.Merge?
    requires HasEntry(Apply(s, db, op, v, q), p, n)
    requires HasEntry(db, p, n) ==> EntryAt(db, p, n) != EntryAt(Apply(s, db, op, v, q), p, n)
    ensures var db' := Apply(s, db, op, v, q);
      Own(s, db', p, n) && Provenance.OwnEntry(s, op, v, q, n, EntryAt(db', p, n))
  {
    Provenance.LocalEntriesAreOwn(s, db, op, v, q, p, n);
    hide Apply;
  }

  lemma RowsStamp(was: Db, now: Db, v: int)
    requires forall p :: RowStamps(MetaAt(was, p), MetaAt(now, p), v)
    ensures Stamps(was, now, v)
  {
    if p :| MetaAt(now, p) != MetaAt(was, p) {
      var n :| n in MetaAt(now, p) && MetaAt(now, p)[n].dbVersion == v;
      assert HasEntry(now, p, n) && EntryAt(now, p, n).dbVersion == v;
    }
  }

  lemma RowAtStamps(s: Schema, db: Db, op: Op, v: int, q: int, p: Pk)
    requires SchemaOk(s) && OpOk(s, op)
    ensures RowStamps(MetaAt(db, p), MetaAt(Apply(s, db, op, v, q), p), v)
  {
    hide MergeDb, MarkColumns, InsertMeta, DeleteMeta, MoveInMeta, ChangedColumns, KeysTie;
    var row, row' := RowAt(db, p), RowAt(Apply(s, db, op, v, q), p);
    assert row.meta == MetaAt(db, p) && row'.meta == MetaAt(Apply(s, db, op, v, q), p);
    if row' != row {
      match op
      case Insert(pk, values, _, _) => InsertStamps(s, row.meta, v, q);
      case Delete(pk) => DeleteStamps(s, row.meta, v, q);
      case Merge(ch, met) =>
        MergedMeta(s, db, ch, met, v, q, p);
        MergeStamps(s, row.meta, Shown(db.table, p, met), ch, v);
      case Update(pk, newPk, values, _, _, moveSeq) =>
        var changed := ChangedColumns(s.cols, values, db.table[pk]);
        if KeysTie(pk, newPk) {
          MarkStamps(s, row.meta, changed, v, q);
        } else if p == newPk {
          MoveInStamps(s, row.meta, MetaAt(db, pk), changed, v, q + 1, moveSeq);
        } else {
          DeleteStamps(s, row.meta, v, q);
        }
    }
  }

  // ---------- the machine ----------

  /** What the send query found: the clock entries in the payload, and the cursor that will be stored. */
  datatype Flight = Flight(ghost sent: iset<(Pk, Name, Entry)>, dv: int, seqNo: int)

  /**
   `db` is committed, `work` what the open transaction sees; `cursorDv`/`cursorSeq` are the stored
   settings; `delivered` the clock entries of every change in a payload whose upload was notified;
   `flight` is there between the send query and the end of the call.
   */
  datatype World = World(
    db: Db, work: Db, clock: Clock, cursorDv: int, cursorSeq: int,
    ghost delivered: iset<(Pk, Name, Entry)>, flight: Option<Flight>)

  datatype Event =
    | Local(op: Op, seqNo: int)
    | ReadVersion
    | CommitTxn
    | RollbackTxn
    | OtherConnection(db: Db, max: int)
    | Query(newSeq: int)
    | SendFails
    | SendOk

  /** The rows the send query selects: this site's own changes above the cursor. */
  ghost predicate Selected(s: Schema, w: World, p: Pk, n: Name) {
    Own(s, w.db, p, n) && Above(w, EntryAt(w.db, p, n))
  }

  ghost predicate Own(s: Schema, db: Db, p: Pk, n: Name) {
    HasEntry(db, p, n) && EntryAt(db, p, n).site == s.site
  }

  predicate Above(w: World, e: Entry) {
    e.dbVersion > w.cursorDv || (e.dbVersion == w.cursorDv && e.seqNo > w.cursorSeq)
  }

  /** Every entry of the table is exported: none of them shows the restricted marker. */
  ghost predicate AllExported(db: Db) {
    forall p, n :: HasEntry(db, p, n) ==> ExportedValue(RowAt(db, p), n) != RLS_RESTRICTED
  }

  /** MAX(IIF(db_version = max, seq, NULL)) over the selected rows; NULL reads as 0. */
  ghost predicate IsNewSeq(s: Schema, w: World, newSeq: int) {
    if exists p, n :: Selected(s, w, p, n) && EntryAt(w.db, p, n).dbVersion == w.clock.stored then
      && (exists p, n :: Selected(s, w, p, n) && EntryAt(w.db, p, n).dbVersion == w.clock.stored
                         && EntryAt(w.db, p, n).seqNo == newSeq)
      && (forall p, n :: Selected(s, w, p, n) && EntryAt(w.db, p, n).dbVersion == w.clock.stored
                         ==> EntryAt(w.db, p, n).seqNo <= newSeq)
    else newSeq == 0
  }

  /** What commits on another connection to the same file may do: its clock hands out new versions too. */
  ghost predicate OtherWrites(was: Db, now: Db, stored: int, max: int) {
    && IsMax(now, max) && max >= stored
    && (forall p, n :: HasEntry(now, p, n) ==>
          (HasEntry(was, p, n) && EntryAt(was, p, n) == EntryAt(now, p, n)) || EntryAt(now, p, n).dbVersion > stored)
  }

  function Merging(op: Op): int {
    if op.Merge? then op.ch.dbVersion else NOTSET
  }

  ghost function Committed(w: World): World {
    w.(db := w.work, clock := Commit(w.clock))
  }

  /** The send query has run. */
  ghost function Queried(s: Schema, w: World, newSeq: int): World {
    w.(flight := Some(Flight(iset p, n | Selected(s, w, p, n) :: (p, n, EntryAt(w.db, p, n)), w.clock.stored, newSeq)))
  }

  /** Storing each cursor setting that changed is one small transaction of its own. */
  function AfterSettings(w: World, f: Flight): Clock {
    var c := if f.dv != w.cursorDv then Commit(w.clock) else w.clock;
    if f.seqNo != w.cursorSeq then Commit(c) else c
  }

  /** Those transactions are commits like any other. */
  predicate SettingsGuard(w: World, f: Flight) {
    f.dv != w.cursorDv || f.seqNo != w.cursorSeq ==> CommitGuard(w.clock)
  }

  ghost predicate Idle(w: World) {
    w.clock.written == 0 && w.work == w.db
  }

  /** One step; only other connections get in between the send query and the end of the call. */
  ghost predicate Happens(s: Schema, w: World, e: Event, w': World) {
    match e
    case Local(op, q) =>
      var v := Handed(w.clock, Merging(op));
      && w.flight.None? && OpOk(s, op) && Merging(op) >= NOTSET
      && w'.work == Apply(s, w.work, op, v, q)
      && w'.clock == (if forall p :: MetaAt(w'.work, p) == MetaAt(w.work, p) then Next(w.clock, Merging(op))
                      else Write(Next(w.clock, Merging(op)), v))
      && w'.db == w.db && w'.cursorDv == w.cursorDv && w'.cursorSeq == w.cursorSeq && w'.delivered == w.delivered
      && w'.flight == w.flight
    case ReadVersion =>
      w.flight.None? && w' == w.(clock := CheckUptodate(w.clock))
    case CommitTxn =>
      w.flight.None? && CommitGuard(w.clock) && w' == Committed(w)
    case RollbackTxn =>
      w.flight.None? && w' == w.(work := w.db, clock := Rollback(w.clock))
    case OtherConnection(db', max) =>
      && Idle(w) && OtherWrites(w.db, db', w.clock.stored, max)
      && w' == w.(db := db', work := db', clock := OtherCommit(w.clock, max))
    case Query(newSeq) =>
      && w.flight.None? && Idle(w) && AllExported(w.db) && IsNewSeq(s, w, newSeq)
      && (exists p, n :: Selected(s, w, p, n))
      && w' == Queried(s, w, newSeq)
    case SendFails =>
      w.flight.Some? && w' == w.(flight := None)
    case SendOk =>
      w.flight.Some? && var f := w.flight.value;
      && SettingsGuard(w, f)
      && w' == w.(cursorDv := f.dv, cursorSeq := f.seqNo, clock := AfterSettings(w, f),
                  delivered := w.delivered + f.sent, flight := None)
  }

  /** Every own change is in a notified payload or still above the cursor. */
  ghost predicate NothingLost(s: Schema, w: World) {
    forall p, n :: Own(s, w.db, p, n) ==> (p, n, EntryAt(w.db, p, n)) in w.delivered || Above(w, EntryAt(w.db, p, n))
  }

  ghost predicate TxnOk(w: World) {
    if w.clock.written == 0 then forall p :: MetaAt(w.work, p) == MetaAt(w.db, p)
    else
      && IsMax(w.work, w.clock.written) && w.clock.written > w.clock.stored
      && forall p, n :: HasEntry(w.work, p, n) ==>
           (HasEntry(w.db, p, n) && EntryAt(w.db, p, n) == EntryAt(w.work, p, n))
           || EntryAt(w.work, p, n).dbVersion > w.clock.stored
  }

  /** An own change that came after the send query is above the cursor the call is about to store. */
  ghost predicate FlightOk(s: Schema, w: World) {
    w.flight.Some? ==>
      && Idle(w) && 0 <= w.flight.value.dv <= w.clock.stored
      && forall p, n :: Own(s, w.db, p, n) ==>
           var e := EntryAt(w.db, p, n);
           (p, n, e) in w.delivered || (p, n, e) in w.flight.value.sent || e.dbVersion > w.flight.value.dv
  }

  ghost predicate WorldInv(s: Schema, w: World) {
    && SchemaOk(s)
    && Good(w.clock) && IsMax(w.db, w.clock.stored) && TxnOk(w)
    && 0 <= w.cursorDv <= w.clock.stored
    && NothingLost(s, w) && FlightOk(s, w)
  }

  lemma LocalKeeps(s: Schema, w: World, e: Event, w': World)
    requires WorldInv(s, w) && e.Local? && Happens(s, w, e, w')
    ensures WorldInv(s, w')
  {
    hide Apply, EntryAt, HasEntry, MetaAt, CheckUptodate;
    var v := Handed(w.clock, Merging(e.op));
    ApplyStamps(s, w.work, e.op, v, e.seqNo);
    HandedExactly(w.clock, Merging(e.op));
    LocalClock(w.clock, Merging(e.op));
    LocalTxn(w, w', v);
  }

  lemma LocalClock(c: Clock, merging: int)
    requires Good(c) && merging >= NOTSET
    ensures Good(Next(c, merging)) && Good(Write(Next(c, merging), Handed(c, merging)))
    ensures Next(c, merging).stored == c.stored && Next(c, merging).written == c.written
    ensures Handed(c, merging) > c.stored && Handed(c, merging) >= c.written
  {
    TakeKeeps(c, StepNext(merging, false));
    TakeKeeps(c, StepNext(merging, true));
    HandedExactly(c, merging);
  }

  lemma LocalTxn(w: World, w': World, v: int)
    requires TxnOk(w) && IsMax(w.db, w.clock.stored) && Stamps(w.work, w'.work, v) && w'.db == w.db
    requires v > w.clock.stored && v >= w.clock.written && w.clock.written >= 0 && w.clock.stored >= 0
    requires w'.clock.stored == w.clock.stored
    requires w'.clock.written == if forall p :: MetaAt(w'.work, p) == MetaAt(w.work, p) then w.clock.written else v
    ensures TxnOk(w')
  {
    if forall p :: MetaAt(w'.work, p) == MetaAt(w.work, p) {
      forall p, n ensures HasEntry(w'.work, p, n) == HasEntry(w.work, p, n)
        && (HasEntry(w.work, p, n) ==> EntryAt(w'.work, p, n) == EntryAt(w.work, p, n)) {}
    } else {
      forall p, n | HasEntry(w.work, p, n) ensures EntryAt(w.work, p, n).dbVersion <= v
        && ((HasEntry(w.db, p, n) && EntryAt(w.db, p, n) == EntryAt(w.work, p, n))
            || EntryAt(w.work, p, n).dbVersion > w.clock.stored)
      {
        if w.clock.written == 0 { assert MetaAt(w.work, p) == MetaAt(w.db, p) && HasEntry(w.db, p, n); }
      }
    }
  }

  /** Once committed, every entry a local statement changed is one that the next send query selects. */
  lemma LocalIsSelected(s: Schema, w: World, e: Event, w': World, p: Pk, n: Name)
    requires WorldInv(s, w) && e.Local? && !e.op.Merge? && Happens(s, w, e, w')
    requires HasEntry(w'.work, p, n) && (HasEntry(w.work, p, n) ==> EntryAt(w.work, p, n) != EntryAt(w'.work, p, n))
    ensures Selected(s, Committed(w'), p, n)
  {
    hide Apply;
    LocalIsOwn(s, w.work, e.op, Handed(w.clock, NOTSET), e.seqNo, p, n);
    LocalClock(w.clock, NOTSET);
  }

  lemma QueryKeeps(s: Schema, w: World, e: Event, w': World)
    requires WorldInv(s, w) && e.Query? && Happens(s, w, e, w')
    ensures WorldInv(s, w')
  {
    hide SchemaOk, IsMax, IsNewSeq, AllExported, HasEntry, EntryAt, MetaAt, CheckUptodate;
    forall p, n | Own(s, w.db, p, n) && Above(w, EntryAt(w.db, p, n))
      ensures (p, n, EntryAt(w.db, p, n)) in w'.flight.value.sent
    {
      assert Selected(s, w, p, n);
    }
  }

  /** What a query selected is not above the cursor it will leave: once sent, it is not sent again. */
  lemma SentOnlyOnce(s: Schema, w: World, e: Event, w': World, later: World, p: Pk, n: Name)
    requires WorldInv(s, w) && e.Query? && Happens(s, w, e, w') && Selected(s, w, p, n)
    requires later.cursorDv == w'.flight.value.dv && later.cursorSeq == w'.flight.value.seqNo
    ensures !Above(later, EntryAt(w.db, p, n))
  {
    hide SchemaOk, AllExported, MetaAt, CheckUptodate;
    assert HasEntry(w.db, p, n);
  }

  lemma SendKeeps(s: Schema, w: World, e: Event, w': World)
    requires WorldInv(s, w) && (e.SendOk? || e.SendFails?) && Happens(s, w, e, w')
    ensures WorldInv(s, w')
  {
    hide SchemaOk, IsMax, HasEntry, EntryAt, MetaAt;
    if CommitGuard(w.clock) {
      TakeKeeps(w.clock, StepCommit);
      TakeKeeps(Commit(w.clock), StepCommit);
    }
  }

  lemma CommitKeeps(s: Schema, w: World, e: Event, w': World)
    requires WorldInv(s, w) && e.CommitTxn? && Happens(s, w, e, w')
    ensures WorldInv(s, w')
  {
    hide SchemaOk, CheckUptodate;
    TakeKeeps(w.clock, StepCommit);
    if w.clock.written == 0 {
      forall p, n ensures HasEntry(w.work, p, n) == HasEntry(w.db, p, n)
        && (HasEntry(w.db, p, n) ==> EntryAt(w.work, p, n) == EntryAt(w.db, p, n))
      {
        assert MetaAt(w.work, p) == MetaAt(w.db, p);
      }
    }
  }

  lemma OtherKeeps(s: Schema, w: World, e: Event, w': World)
    requires WorldInv(s, w) && e.OtherConnection? && Happens(s, w, e, w')
    ensures WorldInv(s, w')
  {
    hide SchemaOk, CheckUptodate;
    TakeKeeps(w.clock, StepOther(e.max));
  }

  lemma EventKeeps(s: Schema, w: World, e: Event, w': World)
    requires WorldInv(s, w) && Happens(s, w, e, w')
    ensures WorldInv(s, w')
  {
    match e
    case Local(_, _) => LocalKeeps(s, w, e, w');
    case Query(_) => QueryKeeps(s, w, e, w');
    case SendOk => SendKeeps(s, w, e, w');
    case SendFails => SendKeeps(s, w, e, w');
    case CommitTxn => CommitKeeps(s, w, e, w');
    case OtherConnection(_, _) => OtherKeeps(s, w, e, w');
    case ReadVersion => QuietKeeps(s, w, e, w');
    case RollbackTxn => QuietKeeps(s, w, e, w');
  }

  lemma QuietKeeps(s: Schema, w: World, e: Event, w': World)
    requires WorldInv(s, w) && (e.ReadVersion? || e.RollbackTxn?) && Happens(s, w, e, w')
    ensures WorldInv(s, w')
  {
    hide SchemaOk, IsMax;
    TakeKeeps(w.clock, if e.ReadVersion? then StepRead else StepRollback);
  }

  /** A connection opened on a committed table with nothing of its own above or below the cursor lost. */
  ghost predicate Start(s: Schema, w: World) {
    && SchemaOk(s) && w.work == w.db && IsMax(w.db, w.clock.stored) && w.flight.None?
    && w.clock.stored >= 0 && w.clock.fileVersion >= 1 && w.clock == Opened(w.clock.stored, w.clock.fileVersion)
    && 0 <= w.cursorDv <= w.clock.stored && NothingLost(s, w)
  }

  ghost predicate WorldHistory(s: Schema, worlds: seq<World>, events: seq<Event>) {
    && |worlds| == |events| + 1
    && Start(s, worlds[0])
    && forall i :: 0 <= i < |events| ==> Happens(s, worlds[i], events[i], worlds[i + 1])
  }

  /** Over every history, every own change is in a notified payload or lexicographically above the cursor. */
  lemma {:induction false} NothingIsLost(s: Schema, worlds: seq<World>, events: seq<Event>, i: nat)
    requires WorldHistory(s, worlds, events) && i < |worlds|
    ensures WorldInv(s, worlds[i])
    ensures NothingLost(s, worlds[i])
  {
    hide Happens, NothingLost, IsMax;
    if i > 0 {
      NothingIsLost(s, worlds, events, i - 1);
      EventKeeps(s, worlds[i - 1], events[i - 1], worlds[i]);
    } else {
      StartKeeps(s, worlds[0]);
    }
  }

  lemma StartKeeps(s: Schema, w: World)
    requires Start(s, w)
    ensures WorldInv(s, w)
  {
    hide IsMax, NothingLost;
  }

  // ---------- a commit without its guard ----------

  /** One row of another site at version 10, everything up to there sent, and a connection just opened. */
  ghost const AT_TEN: World := World(TEN_ROW, TEN_ROW, Opened(10, 1), 10, 0, iset{}, None)
  const TEN_ROW: Db := Db(map[OLD_KEY := map[COL := Integer(7)]], map[OLD_KEY := map[COL := Entry(1, 10, [9], 0)]])
  const NEW_ROW: Op := Insert(NEW_KEY, map[COL := Integer(8)], false, {})

  /**
   The connection reads the version and commits a transaction that handed nothing out, which the guard of a
   commit forbids. The row it inserts next is version 1 to it, below the cursor, and is never sent.
   */
  lemma CommitWithoutGuardLoses()
    ensures Start(ONE_COLUMN, AT_TEN)
    ensures var read := AT_TEN.(clock := CheckUptodate(AT_TEN.clock));
      && Happens(ONE_COLUMN, AT_TEN, ReadVersion, read) && !CommitGuard(read.clock)
      && exists w ::
           Happens(ONE_COLUMN, Committed(read), Local(NEW_ROW, 0), w) && !NothingLost(ONE_COLUMN, Committed(w))
  {
    TenRowStarts();
    var read := AT_TEN.(clock := CheckUptodate(AT_TEN.clock));
    var w := Committed(read);
    assert w.clock == Clock(0, NOTSET, 1, 10, 0, 1) && Handed(w.clock, NOTSET) == 1;
    var work := Apply(ONE_COLUMN, TEN_ROW, NEW_ROW, 1, 0);
    NewRowEntry();
    assert MetaAt(work, NEW_KEY) != MetaAt(TEN_ROW, NEW_KEY);
    var w' := w.(work := work, clock := Write(Next(w.clock, NOTSET), 1));
    assert Happens(ONE_COLUMN, w, Local(NEW_ROW, 0), w');
    assert Own(ONE_COLUMN, Committed(w').db, NEW_KEY, COL);
  }

  lemma TenRowStarts()
    ensures Start(ONE_COLUMN, AT_TEN)
    ensures SchemaOk(ONE_COLUMN) && OpOk(ONE_COLUMN, NEW_ROW)
  {
    assert |COL| == 1 && COL != SENTINEL;
    assert COL in TEN_ROW.meta[OLD_KEY];
    assert HasEntry(TEN_ROW, OLD_KEY, COL) && EntryAt(TEN_ROW, OLD_KEY, COL).dbVersion == 10;
  }

  lemma NewRowEntry()
    ensures var work := Apply(ONE_COLUMN, TEN_ROW, NEW_ROW, 1, 0);
      HasEntry(work, NEW_KEY, COL) && EntryAt(work, NEW_KEY, COL) == Entry(1, 1, [], 0)
    ensures MetaAt(TEN_ROW, NEW_KEY) == map[]
  {
    assert OLD_KEY[5] != NEW_KEY[5];
    var m: RowMeta := map[];
    assert [COL][..0] == [] && MarkColumns(ONE_COLUMN, m, [], 1, 0) == m;
    assert MarkColumns(ONE_COLUMN, m, [COL], 1, 0) == RowInsertUpdate(ONE_COLUMN, m, COL, 1, 1, 0);
    assert InsertMeta(ONE_COLUMN, m, 1, 0) == MarkColumns(ONE_COLUMN, m, [COL], 1, 0);
    hide InsertMeta, MarkColumns;
    assert RowAt(Apply(ONE_COLUMN, TEN_ROW, NEW_ROW, 1, 0), NEW_KEY).meta == InsertMeta(ONE_COLUMN, m, 1, 0);
  }

  // ---------- exactly when the next row is lost ----------

  /** A row under a key that has no entry and that no payload has carried. */
  ghost predicate Unused(w: World, pk: Pk) {
    MetaAt(w.work, pk) == map[] && pk !in w.work.table && forall n, e :: (pk, n, e) !in w.delivered
  }

  function NewRow(s: Schema, pk: Pk): Op {
    Insert(pk, s.defaults, false, {})
  }

  /** The row is inserted with the version that the clock hands out. */
  ghost function Inserted(s: Schema, w: World, pk: Pk, q: int): World {
    var v := Handed(w.clock, NOTSET);
    w.(work := Apply(s, w.work, NewRow(s, pk), v, q), clock := Write(Next(w.clock, NOTSET), v))
  }

  /**
   After any commit, with its guard met or not: the next row is inserted as an event of the machine, and once that
   is committed too, something is lost if and only if the version handed out, with the row's first sequence
   number, is not above the cursor.
   */
  lemma NextRowIsLostExactly(s: Schema, w: World, pk: Pk, q: int)
    requires WorldInv(s, w) && w.flight.None? && Unused(w, pk)
    ensures NothingLost(s, Committed(w))
    ensures Happens(s, Committed(w), Local(NewRow(s, pk), q), Inserted(s, Committed(w), pk, q))
    ensures var v := Handed(Commit(w.clock), NOTSET);
      NothingLost(s, Committed(Inserted(s, Committed(w), pk, q))) <==> Above(w, Entry(1, v, s.site, q))
  {
    var done := Committed(w);
    var v := Handed(done.clock, NOTSET);
    var end := Committed(Inserted(s, done, pk, q));
    CommitLosesNothing(s, w);
    NewRowMeta(s, w.work, pk, v, q);
    NewRowElsewhere(s, w.work, pk, v, q);
    hide Apply, Handed, WorldInv;
    var first := if s.cols == [] then SENTINEL else s.cols[0];
    assert MetaAt(end.db, pk)[first] == EntryAt(end.db, pk, first) && Own(s, end.db, pk, first);
    if Above(w, Entry(1, v, s.site, q)) {
      forall p, n | Own(s, end.db, p, n)
        ensures (p, n, EntryAt(end.db, p, n)) in end.delivered || Above(end, EntryAt(end.db, p, n))
      {
        if p != pk { assert Own(s, done.db, p, n); }
      }
    }
  }

  lemma CommitLosesNothing(s: Schema, w: World)
    requires WorldInv(s, w)
    ensures NothingLost(s, Committed(w))
  {
    forall p, n | Own(s, w.work, p, n)
      ensures (p, n, EntryAt(w.work, p, n)) in w.delivered || Above(w, EntryAt(w.work, p, n))
    {
      if w.clock.written == 0 { assert MetaAt(w.work, p) == MetaAt(w.db, p); }
      if HasEntry(w.db, p, n) && EntryAt(w.db, p, n) == EntryAt(w.work, p, n) { assert Own(s, w.db, p, n); }
    }
  }

  /** Every entry of a new row carries the version, from the first sequence number on. */
  lemma NewRowMeta(s: Schema, db: Db, pk: Pk, v: int, q: int)
    requires SchemaOk(s) && MetaAt(db, pk) == map[] && pk !in db.table
    ensures var m := MetaAt(Apply(s, db, NewRow(s, pk), v, q), pk);
      var first := if s.cols == [] then SENTINEL else s.cols[0];
      && first in m && m[first] == Entry(1, v, s.site, q)
      && forall n <- m :: m[n].dbVersion == v && m[n].site == s.site && m[n].seqNo >= q
  {
    var m: RowMeta := map[];
    assert RowAt(Apply(s, db, NewRow(s, pk), v, q), pk).meta == InsertMeta(s, m, v, q);
    if s.cols != [] {
      MarkColumnsEffect(s, m, s.cols, v, q);
      MarkColumnsSeq(s, m, s.cols, v, q, 0);
      var r := MarkColumns(s, m, s.cols, v, q);
      forall n | n in r ensures r[n].seqNo >= q {
        var i :| 0 <= i < |s.cols| && s.cols[i] == n;
        MarkColumnsSeq(s, m, s.cols, v, q, i);
      }
    }
  }

  lemma NewRowElsewhere(s: Schema, db: Db, pk: Pk, v: int, q: int)
    ensures forall p :: p != pk ==> MetaAt(Apply(s, db, NewRow(s, pk), v, q), p) == MetaAt(db, p)
  {
    hide InsertMeta;
    forall p | p != pk ensures MetaAt(Apply(s, db, NewRow(s, pk), v, q), p) == MetaAt(db, p) {
      EvictedMeta(s, db, NewRow(s, pk), v, q, p);
    }
  }

  /**
   Hence a commit has a next row that is lost if and only if the version handed out after it is not above that of the
   cursor; and the guard of a commit is what makes it new, above everything stored.
   */
  lemma CommitLosesExactly(s: Schema, w: World, pk: Pk)
    requires WorldInv(s, w) && w.flight.None? && Unused(w, pk)
    ensures var v := Handed(Commit(w.clock), NOTSET);
      && ((exists q :: !NothingLost(s, Committed(Inserted(s, Committed(w), pk, q)))) <==> v <= w.cursorDv)
      && (CommitGuard(w.clock) <==> v > Commit(w.clock).stored)
  {
    var v := Handed(Commit(w.clock), NOTSET);
    CommitExactly(w.clock);
    forall q ensures NothingLost(s, Committed(Inserted(s, Committed(w), pk, q))) <==> Above(w, Entry(1, v, s.site, q)) {
      NextRowIsLostExactly(s, w, pk, q);
    }
    hide WorldInv, NothingLost, Committed, Inserted, Handed;
    assert !Above(w, Entry(1, v, s.site, w.cursorSeq)) <==> v <= w.cursorDv;
  }

  // ---------- the send function ----------

  /** What other connections did in the meantime. */
  ghost predicate Meanwhile(s: Schema, worlds: seq<World>) {
    |worlds| >= 1 && forall i :: 0 <= i < |worlds| - 1 ==>
      exists db, max :: Happens(s, worlds[i], OtherConnection(db, max), worlds[i + 1])
  }

  lemma {:induction false} FlightStays(s: Schema, worlds: seq<World>, i: nat)
    requires Meanwhile(s, worlds) && i < |worlds|
    ensures var w, w' := worlds[0], worlds[i];
      w'.flight == w.flight && w'.cursorDv == w.cursorDv && w'.cursorSeq == w.cursorSeq
  {
    hide Happens;
    if i > 0 {
      FlightStays(s, worlds, i - 1);
      var db, max :| Happens(s, worlds[i - 1], OtherConnection(db, max), worlds[i]);
      OtherLeavesFlight(s, worlds[i - 1], db, max, worlds[i]);
    }
  }

  lemma OtherLeavesFlight(s: Schema, w: World, db: Db, max: int, w': World)
    requires Happens(s, w, OtherConnection(db, max), w')
    ensures w'.flight == w.flight && w'.cursorDv == w.cursorDv && w'.cursorSeq == w.cursorSeq
  {
  }

  /** The two stored cursor settings, and cloudsync_network_send_changes_internal, which moves them. */
  class Sender {
    var sendDbVersion: int
    var sendSeq: int

    constructor (dv: int, q: int)
      ensures sendDbVersion == dv && sendSeq == q
    {
      sendDbVersion, sendSeq := dv, q;
    }

    /**
     `selected`, `newDbVersion` and `newSeq` are what the query returned: whether there is anything to send and
     the new cursor. The three calls are the upload address, the upload and the notification; `worlds` begins
     behind the query and ends when the function does. Whatever fails, the settings move as the machine says,
     and they move only after the notification.
     */
    method SendChanges(selected: bool, newDbVersion: int, newSeq: int, urlOk: bool, uploadOk: bool, notifyOk: bool,
                       ghost s: Schema, ghost w: World, ghost worlds: seq<World>)
      returns (ok: bool, ghost w': World)
      requires w.cursorDv == sendDbVersion && w.cursorSeq == sendSeq && w.flight.None? && Idle(w) && AllExported(w.db)
      requires selected <==> exists p, n :: Selected(s, w, p, n)
      requires newDbVersion == w.clock.stored && IsNewSeq(s, w, newSeq)
      requires Meanwhile(s, worlds) && worlds[0] == Queried(s, w, newSeq)
      modifies this
      ensures var asked := selected && old(sendDbVersion) >= 0 && old(sendSeq) >= 0;
        var sent := urlOk && uploadOk && notifyOk;
        && (asked ==> Happens(s, w, Query(newSeq), worlds[0]))
        && var last := worlds[|worlds| - 1];
        && (asked && !sent ==> Happens(s, last, SendFails, w'))
        && (asked && sent && SettingsGuard(last, worlds[0].flight.value) ==> Happens(s, last, SendOk, w'))
        && (!asked ==> w' == w)
        && (ok <==> (asked && sent) || (!selected && old(sendDbVersion) >= 0 && old(sendSeq) >= 0))
      ensures w'.cursorDv == sendDbVersion && w'.cursorSeq == sendSeq
    {
      hide AllExported, IsNewSeq, AfterSettings, SettingsGuard, Selected;
      FlightStays(s, worlds, |worlds| - 1);
      ghost var now := worlds[|worlds| - 1];
      ghost var f := now.flight.value;
      if sendDbVersion < 0 { return false, w; }
      if sendSeq < 0 { return false, w; }
      if !selected { return true, w; }
      w' := now.(flight := None);
      if !urlOk { return false, w'; }
      if !uploadOk { return false, w'; }
      if !notifyOk { return false, w'; }
      if newDbVersion != sendDbVersion { sendDbVersion := newDbVersion; }
      if newSeq != sendSeq { sendSeq := newSeq; }
      ok := true;
      w' := now.(cursorDv := f.dv, cursorSeq := f.seqNo, clock := AfterSettings(now, f),
                 delivered := now.delivered + f.sent, flight := None);
    }
  }
}
