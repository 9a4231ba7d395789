/**
 Where a clock entry comes from: at which version it was written, whose change it is, and its place in that
 change's transaction. A local statement writes entries of this replica; a merge writes entries of the replica
 the change came from; an export tells what the entry says.
 */
module Provenance {
  import opened Values
  import opened Wrappers
  import opened Replica
  import ValueOrder

  /** A column's version after one more change; a first one is 1. */
  function Bumped(m: RowMeta, n: Name): int {
    if n in m then m[n].colVersion + 1 else 1
  }

  ghost predicate Distinct(names: seq<Name>) {
    forall i, j :: 0 <= i < j < |names| ==> names[i] != names[j]
  }

  lemma MarkedEntry(s: Schema, m: RowMeta, names: seq<Name>, v: int, q: int, n: Name)
    requires Distinct(names)
    ensures var r := MarkColumns(s, m, names, v, q);
      && (n in r <==> n in m || n in names)
      && (n in m && n !in names ==> r[n] == m[n])
      && (forall i :: 0 <= i < |names| && names[i] == n ==> r[n] == Entry(Bumped(m, n), v, s.site, q + i))
  {
    MarkColumnsEffect(s, m, names, v, q);
    hide MarkColumns;
    forall i | 0 <= i < |names| && names[i] == n
      ensures var r := MarkColumns(s, m, names, v, q); n in r && r[n] == Entry(Bumped(m, n), v, s.site, q + i)
    {
      MarkColumnsSeq(s, m, names, v, q, i);
    }
  }

  // ---------- local statements, entry by entry ----------

  /** This replica's sentinel: the least odd version after the one in `m`, 1 if there is none. */
  ghost predicate LiveSentinel(s: Schema, m: RowMeta, r: RowMeta, v: int, q: int)
    requires SENTINEL in r
  {
    var e := r[SENTINEL];
    && e == Entry(e.colVersion, v, s.site, q) && e.colVersion % 2 == 1
    && (if SENTINEL in m then m[SENTINEL].colVersion < e.colVersion <= m[SENTINEL].colVersion + 2
        else e.colVersion == 1)
  }

  /**
   An insert numbers the columns in order. Over a row that was here before it first brings the sentinel, if
   there is one, to the next odd version, under this replica's name.
   */
  lemma InsertedEntries(s: Schema, db: Db, op: Op, v: int, q: int, n: Name)
    requires SchemaOk(s) && op.Insert? && (op.pk !in db.table || op.orReplace)
    ensures var m, r := MetaAt(db, op.pk), MetaAt(Apply(s, db, op, v, q), op.pk);
      && (n in r <==> n in m || n in s.cols || (n == SENTINEL && s.cols == []))
      && (n == SENTINEL && n in r ==> LiveSentinel(s, m, r, v, q))
      && (forall i :: 0 <= i < |s.cols| && s.cols[i] == n ==>
            r[n] == Entry(Bumped(m, n), v, s.site, q + i + if m == map[] then 0 else 1))
      && (n in m && n !in s.cols && n != SENTINEL ==> r[n] == m[n])
  {
    var m := MetaAt(db, op.pk);
    var r := InsertMeta(s, m, v, q);
    assert RowAt(Apply(s, db, op, v, q), op.pk).meta == r;
    MarkedEntry(s, SentinelUpdate(s, m, v, q), s.cols, v, q + 1, n);
    MarkedEntry(s, m, s.cols, v, q, n);
    hide MarkColumns, Apply;
  }

  /** A delete leaves a sentinel of this replica, and nothing else. */
  lemma DeletedEntries(s: Schema, db: Db, op: Op, v: int, q: int)
    requires op.Delete? && op.pk in db.table
    ensures var m := MetaAt(db, op.pk);
      MetaAt(Apply(s, db, op, v, q), op.pk) ==
        map[SENTINEL := Entry(if SENTINEL in m then m[SENTINEL].colVersion + 1 else 2, v, s.site, q)]
  {
    assert RowAt(Apply(s, db, op, v, q), op.pk).meta == DeleteMeta(s, MetaAt(db, op.pk), v, q);
  }

  /** An update under keys that count as the same numbers the columns whose values differ. */
  lemma UpdatedEntries(s: Schema, db: Db, op: Op, v: int, q: int, n: Name)
    requires SchemaOk(s) && op.Update? && !UpdateRefused(db, op) && KeysTie(op.pk, op.newPk)
    ensures var m, r := MetaAt(db, op.newPk), MetaAt(Apply(s, db, op, v, q), op.newPk);
      var changed := ChangedColumns(s.cols, op.values, db.table[op.pk]);
      && (n in r <==> n in m || n in changed)
      && (forall i :: 0 <= i < |changed| && changed[i] == n ==> r[n] == Entry(Bumped(m, n), v, s.site, q + i))
      && (n in m && n !in changed ==> r[n] == m[n])
  {
    var changed := ChangedColumns(s.cols, op.values, db.table[op.pk]);
    ChangedColumnsEffect(s.cols, op.values, db.table[op.pk]);
    MarkedEntry(s, MetaAt(db, op.newPk), changed, v, q, n);
    UpdateRow(s, db, op, v, q, op.newPk);
    hide MarkColumns, ChangedColumns, Apply, KeysTie;
    assert RowAt(Apply(s, db, op, v, q), op.newPk).meta == MarkColumns(s, MetaAt(db, op.newPk), changed, v, q);
  }

  /** What stands at the new key, given the entries `m` of the old one and `t` that were there. */
  ghost predicate Arrived(s: Schema, m: RowMeta, t: RowMeta, r: RowMeta, changed: seq<Name>, v: int, q: int,
                          moveSeq: Name -> int, n: Name) {
    && (n in r <==> n in m || n in t || n == SENTINEL || n in changed)
    && (n == SENTINEL ==> LiveSentinel(s, t, r, v, q + 1))
    && (forall i :: 0 <= i < |changed| && changed[i] == n ==>
          r[n] == Entry(if n in m then 2 else Bumped(t, n), v, s.site, q + 2 + i))
    && (n != SENTINEL && n !in changed ==>
          && (n in m ==> r[n] == Entry(1, v, s.site, moveSeq(n)))
          && (n !in m && n in t ==> r[n] == t[n]))
  }

  lemma ArrivedEntries(s: Schema, m: RowMeta, t: RowMeta, changed: seq<Name>, v: int, q: int,
                       moveSeq: Name -> int, n: Name)
    requires Distinct(changed) && SENTINEL !in changed
    ensures var moved := MoveInMeta(s, t, m, v, q + 1, moveSeq);
      Arrived(s, m, t, MarkColumns(s, moved, changed, v, q + 2), changed, v, q, moveSeq, n)
  {
    MarkedEntry(s, MoveInMeta(s, t, m, v, q + 1, moveSeq), changed, v, q + 2, n);
    hide MarkColumns;
  }

  /**
   At the new key of a key change the entries that came along start again at version 1 with what
   cloudsync_seq() gave them, the sentinel is live, and then the changed columns follow.
   */
  lemma MovedEntries(s: Schema, db: Db, op: Op, v: int, q: int, n: Name)
    requires SchemaOk(s) && op.Update? && !UpdateRefused(db, op) && !KeysTie(op.pk, op.newPk)
    ensures var changed := ChangedColumns(s.cols, op.values, db.table[op.pk]);
      Arrived(s, MetaAt(db, op.pk), MetaAt(db, op.newPk), MetaAt(Apply(s, db, op, v, q), op.newPk), changed, v, q,
              op.moveSeq, n)
  {
    var changed := ChangedColumns(s.cols, op.values, db.table[op.pk]);
    ChangedColumnsEffect(s.cols, op.values, db.table[op.pk]);
    ArrivedEntries(s, MetaAt(db, op.pk), MetaAt(db, op.newPk), changed, v, q, op.moveSeq, n);
    UpdateRow(s, db, op, v, q, op.newPk);
    hide MarkColumns, ChangedColumns, Apply, KeysTie, MoveInMeta, Arrived;
    assert RowAt(Apply(s, db, op, v, q), op.newPk).meta == MetaAt(Apply(s, db, op, v, q), op.newPk);
  }

  /** Under its old key the row is deleted, before anything else. */
  lemma DepartedEntries(s: Schema, db: Db, op: Op, v: int, q: int)
    requires op.Update? && !UpdateRefused(db, op) && !KeysTie(op.pk, op.newPk)
    ensures var m, r := MetaAt(db, op.pk), MetaAt(Apply(s, db, op, v, q), op.pk);
      r == map[SENTINEL := Entry(if SENTINEL in m then m[SENTINEL].colVersion + 1 else 2, v, s.site, q)]
  {
    UpdateRow(s, db, op, v, q, op.pk);
    SameKeyTies(op.pk);
    hide MarkColumns, ChangedColumns, Apply, KeysTie, MoveInMeta;
    assert RowAt(Apply(s, db, op, v, q), op.pk).meta == DeleteMeta(s, MetaAt(db, op.pk), v, q);
  }

  lemma SameKeyTies(p: Pk)
    ensures KeysTie(p, p)
  {
  }

  /** The entry is of this replica, of version `v`, and numbered by the statement. */
  predicate OwnEntry(s: Schema, op: Op, v: int, q: int, n: Name, e: Entry) {
    && e.site == s.site && e.dbVersion == v
    && (q <= e.seqNo <= q + |s.cols| + 1 || (op.Update? && e.seqNo == op.moveSeq(n)))
  }

  /**
   Whatever entry a local statement leaves changed, at any key, belongs to this replica: its version is the one
   handed to the statement and its sequence number one that the statement took.
   */
  lemma LocalEntriesAreOwn(s: Schema, db: Db, op: Op, v: int, q: int, p: Pk, n: Name)
    requires SchemaOk(s) && !op.Merge?
    ensures var m, r := MetaAt(db, p), MetaAt(Apply(s, db, op, v, q), p);
      n in r && (n in m ==> m[n] != r[n]) ==> OwnEntry(s, op, v, q, n, r[n])
  {
    if op.Update? {
      if !UpdateRefused(db, op) { UpdatedAreOwn(s, db, op, v, q, p, n); }
    } else {
      var m, r := MetaAt(db, p), MetaAt(Apply(s, db, op, v, q), p);
      assert m == RowAt(db, p).meta && r == RowAt(Apply(s, db, op, v, q), p).meta;
      if r != m {
        hide MarkColumns;
        match op
        case Insert(_, _, _, _) => InsertedEntries(s, db, op, v, q, n);
        case Delete(_) => DeletedEntries(s, db, op, v, q);
      }
    }
  }

  lemma UpdatedAreOwn(s: Schema, db: Db, op: Op, v: int, q: int, p: Pk, n: Name)
    requires SchemaOk(s) && op.Update? && !UpdateRefused(db, op)
    ensures var m, r := MetaAt(db, p), MetaAt(Apply(s, db, op, v, q), p);
      n in r && (n in m ==> m[n] != r[n]) ==> OwnEntry(s, op, v, q, n, r[n])
  {
    var changed := ChangedColumns(s.cols, op.values, db.table[op.pk]);
    ChangedAreFew(s.cols, op.values, db.table[op.pk]);
    UpdateRow(s, db, op, v, q, p);
    hide MarkColumns, ChangedColumns, Apply, KeysTie, MoveInMeta, DeleteMeta;
    assert RowAt(Apply(s, db, op, v, q), p).meta == MetaAt(Apply(s, db, op, v, q), p);
    if KeysTie(op.pk, op.newPk) {
      UpdatedEntries(s, db, op, v, q, n);
    } else {
      MovedEntries(s, db, op, v, q, n);
      DepartedEntries(s, db, op, v, q);
    }
  }

  lemma {:induction false} ChangedAreFew(names: seq<Name>, now: RowValues, was: RowValues)
    ensures |ChangedColumns(names, now, was)| <= |names|
    decreases |names|
  {
    if names != [] { ChangedAreFew(names[..|names| - 1], now, was); }
  }

  // ---------- a merge, entry by entry ----------

  /** The clock entry that a merge takes over: the change's own version, place and replica, at the merge's version. */
  function Taken(version: int, v: int, ch: Change): Entry {
    Entry(version, v, ch.site, ch.seqNo)
  }

  /**
   A change with a smaller causal length, a delete or a sentinel that is known, and a column that loses
   write nothing.
   */
  lemma MergeWritesNone(s: Schema, db: Db, ch: Change, met: Met, v: int, q: int)
    requires WellFormed(s, ch) && MetaInv(s, MetaAt(db, ch.pk))
    requires
      var m := MetaAt(db, ch.pk);
      || ch.cl < CausalLength(m)
      || (ch.cl == CausalLength(m)
          && (ch.name == SENTINEL || !ColumnWins(Row(Shown(db.table, ch.pk, met), m), ch)))
    ensures MetaAt(Apply(s, db, Merge(ch, met), v, q), ch.pk) == MetaAt(db, ch.pk)
  {
    MergedMeta(s, db, ch, met, v, q, ch.pk);
    hide ColumnWins, Apply, WinnerClock, ZeroClock;
  }

  /** A column that wins among equal causal lengths, and a row's first column, write their own entry. */
  lemma MergeWritesColumn(s: Schema, db: Db, ch: Change, met: Met, v: int, q: int)
    requires WellFormed(s, ch) && MetaInv(s, MetaAt(db, ch.pk)) && ch.name != SENTINEL
    requires
      var m := MetaAt(db, ch.pk);
      || (ch.cl == CausalLength(m) && ColumnWins(Row(Shown(db.table, ch.pk, met), m), ch))
      || (ch.cl == 1 && m == map[])
    ensures MetaAt(Apply(s, db, Merge(ch, met), v, q), ch.pk)
      == MetaAt(db, ch.pk)[ch.name := Taken(ch.colVersion, v, ch)]
  {
    MergedMeta(s, db, ch, met, v, q, ch.pk);
    hide ColumnWins, Apply, ZeroClock;
  }

  /** A delete with a greater causal length leaves its sentinel alone. */
  lemma MergeWritesDelete(s: Schema, db: Db, ch: Change, met: Met, v: int, q: int)
    requires WellFormed(s, ch) && MetaInv(s, MetaAt(db, ch.pk))
    requires ch.cl % 2 == 0 && ch.cl > CausalLength(MetaAt(db, ch.pk))
    ensures MetaAt(Apply(s, db, Merge(ch, met), v, q), ch.pk) == map[SENTINEL := Taken(ch.cl, v, ch)]
  {
    MergedMeta(s, db, ch, met, v, q, ch.pk);
    hide Apply, ZeroClock;
  }

  /**
   A row that comes to life with a greater causal length: its sentinel, the column if the change brings one, and
   everything else at version 0, its maker and place unchanged.
   */
  lemma MergeWritesLife(s: Schema, db: Db, ch: Change, met: Met, v: int, q: int, n: Name)
    requires WellFormed(s, ch) && MetaInv(s, MetaAt(db, ch.pk))
    requires ch.cl % 2 == 1 && ch.cl > CausalLength(MetaAt(db, ch.pk))
    requires ch.name == SENTINEL || ch.cl > 1
    ensures var m, r := MetaAt(db, ch.pk), MetaAt(Apply(s, db, Merge(ch, met), v, q), ch.pk);
      && (n in r <==> n in m || n == SENTINEL || n == ch.name)
      && (n in r ==>
            r[n] == (if n == SENTINEL then Taken(ch.cl, v, ch)
                     else if n == ch.name then Taken(ch.colVersion, v, ch)
                     else Entry(0, v, m[n].site, m[n].seqNo)))
  {
    MergedMeta(s, db, ch, met, v, q, ch.pk);
    hide ColumnWins, Apply;
  }

  /** Between columns of one version the greater value is written, and the smaller one is not. */
  lemma GreaterValueWins(s: Schema, row: Row, ch: Change, v: int)
    requires RowInv(s, row) && WellFormed(s, ch) && ch.name != SENTINEL && ch.cl == CausalLength(row.meta)
    requires ch.name in row.meta && row.meta[ch.name].colVersion == ch.colVersion
    ensures row.live.Some? && ch.name in row.live.value
    ensures var was, now := row.live.value[ch.name], MergeRow(s, row, ch, v).live.value[ch.name];
      && (ValueOrder.Less(was, ch.value) ==> now == ch.value)
      && (!ValueOrder.Less(was, ch.value) ==> now == was && MergeRow(s, row, ch, v) == row)
  {
    ValueOrder.CompareIsOrder(row.live.value[ch.name], ch.value);
    hide Compare, ValueOrder.Less;
    CompareLaws(row.live.value[ch.name], ch.value);
  }

  /**
   Without a row of its own, the value it is compared with is that of the row shown for it. With none shown, or no
   such value, the change is written.
   */
  lemma ShownValueDecides(s: Schema, db: Db, ch: Change, met: Met, v: int, q: int)
    requires WellFormed(s, ch) && MetaInv(s, MetaAt(db, ch.pk)) && ch.name != SENTINEL && ch.pk !in db.table
    requires ch.cl == CausalLength(MetaAt(db, ch.pk))
    requires ch.name in MetaAt(db, ch.pk) && MetaAt(db, ch.pk)[ch.name].colVersion == ch.colVersion
    ensures var m, r := MetaAt(db, ch.pk), MetaAt(Apply(s, db, Merge(ch, met), v, q), ch.pk);
      r == if met.shown.Some? && ValueAt(db, met.shown.value, ch.name).Some?
              && !ValueOrder.Less(ValueAt(db, met.shown.value, ch.name).value, ch.value)
           then m else m[ch.name := Taken(ch.colVersion, v, ch)]
  {
    if met.shown.Some? && ValueAt(db, met.shown.value, ch.name).Some? {
      ValueOrder.CompareIsOrder(ValueAt(db, met.shown.value, ch.name).value, ch.value);
      CompareLaws(ValueAt(db, met.shown.value, ch.name).value, ch.value);
    }
    hide Compare, ValueOrder.Less, Apply;
    if ColumnWins(Row(Shown(db.table, ch.pk, met), MetaAt(db, ch.pk)), ch) {
      MergeWritesColumn(s, db, ch, met, v, q);
    } else {
      MergeWritesNone(s, db, ch, met, v, q);
    }
  }

  // ---------- an export ----------

  /**
   A change is exported exactly when it says what the entry under its key and name, the sentinel and the
   value say.
   */
  lemma ExportsExactly(db: Db, ch: Change)
    ensures var m := MetaAt(db, ch.pk);
      Exports(db, ch) <==>
        && ch.name in m && ch.value != RLS_RESTRICTED
        && ch.colVersion == m[ch.name].colVersion && ch.dbVersion == m[ch.name].dbVersion
        && ch.site == m[ch.name].site && ch.seqNo == m[ch.name].seqNo
        && (ch.cl == if SENTINEL in m then m[SENTINEL].colVersion else 1)
        && (if ch.name == SENTINEL then ch.value == Null
            else ch.pk in db.table && ch.name in db.table[ch.pk] && ch.value == db.table[ch.pk][ch.name])
  {
    assert RowAt(db, ch.pk).meta == MetaAt(db, ch.pk);
  }

  function ValueAt(db: Db, p: Pk, n: Name): Option<Value> {
    if p in db.table && n in db.table[p] then Some(db.table[p][n]) else None
  }

  /** Merged into an empty replica, at the version it carries, an export restores its entry, and its value. */
  lemma ExportRestores(s: Schema, db: Db, ch: Change, q: int)
    requires SchemaOk(s) && Inv(s, db) && Exports(db, ch)
    ensures var r := Apply(s, EMPTY_DB, Merge(ch, UNMET), ch.dbVersion, q);
      && ch.name in MetaAt(r, ch.pk) && MetaAt(r, ch.pk)[ch.name] == MetaAt(db, ch.pk)[ch.name]
      && CausalLength(MetaAt(r, ch.pk)) == CausalLength(MetaAt(db, ch.pk))
    ensures var r := Apply(s, EMPTY_DB, Merge(ch, UNMET), ch.dbVersion, q);
      ch.name != SENTINEL ==>
        ValueAt(r, ch.pk, ch.name).Some? && ValueAt(r, ch.pk, ch.name) == ValueAt(db, ch.pk, ch.name)
  {
    ExportsWellFormed(s, db, ch);
    ExportsExactly(db, ch);
    assert MetaAt(EMPTY_DB, ch.pk) == map[];
    assert RowInv(s, Row(None, map[]));
    MergeMetaKeeps(s, map[], None, ch, ch.dbVersion);
    MergedMeta(s, EMPTY_DB, ch, UNMET, ch.dbVersion, q, ch.pk);
    hide Inv, Exports, MetaInv, Apply;
  }

  // ---------- examples ----------

  /** Another replica's deletion of the row, and its row with a later life. */
  const DEAD: Change := Change(OLD_KEY, SENTINEL, Null, 2, 4, [9], 2, 6)
  const ALIVE: Change := Change(OLD_KEY, SENTINEL, Null, 5, 7, [9], 5, 2)

  /** The only row, deleted elsewhere. */
  const DEAD_ROW: Db := Db(map[], map[OLD_KEY := map[SENTINEL := Entry(2, 3, [9], 6)]])

  /** The same, inserted again here. */
  const BACK_ROW: Db :=
    Db(map[OLD_KEY := map[COL := Integer(7)]],
       map[OLD_KEY := map[SENTINEL := Entry(3, 5, [], 8), COL := Entry(1, 5, [], 9)]])

  lemma Names()
    ensures COL != SENTINEL && ColSet(ONE_COLUMN) == {COL} && SchemaOk(ONE_COLUMN)
  {
    assert |COL| == 1;
  }

  /** A row deleted elsewhere and inserted here again: its sentinel is this replica's, at version 3. */
  lemma InsertAfterMergedDelete()
    ensures Apply(ONE_COLUMN, ONE_ROW, Merge(DEAD, UNMET), 3, 0) == DEAD_ROW
    ensures Apply(ONE_COLUMN, DEAD_ROW, Insert(OLD_KEY, map[COL := Integer(7)], false, {}), 5, 8) == BACK_ROW
  {
    Names();
    MergedDelete();
    Inserted();
  }

  lemma MergedDelete()
    ensures Apply(ONE_COLUMN, ONE_ROW, Merge(DEAD, UNMET), 3, 0) == DEAD_ROW
  {
    Names();
    OneRowOk();
    assert RowInv(ONE_COLUMN, RowAt(ONE_ROW, OLD_KEY)) && RowAt(ONE_ROW, OLD_KEY).meta == MetaAt(ONE_ROW, OLD_KEY);
    MergeWritesDelete(ONE_COLUMN, ONE_ROW, DEAD, UNMET, 3, 0);
    hide MergeMeta;
    assert CausalLength(MetaAt(ONE_ROW, OLD_KEY)) == 1 by { assert COL in MetaAt(ONE_ROW, OLD_KEY); }
  }

  lemma Inserted()
    ensures Apply(ONE_COLUMN, DEAD_ROW, Insert(OLD_KEY, map[COL := Integer(7)], false, {}), 5, 8) == BACK_ROW
  {
    Names();
    var m: RowMeta := map[SENTINEL := Entry(2, 3, [9], 6)];
    var m': RowMeta := map[SENTINEL := Entry(3, 5, [], 8)];
    assert SENTINEL in m && SentinelUpdate(ONE_COLUMN, m, 5, 8) == m';
    assert [COL][..0] == [] && MarkColumns(ONE_COLUMN, m', [], 5, 9) == m';
    assert MarkColumns(ONE_COLUMN, m', [COL], 5, 9) == RowInsertUpdate(ONE_COLUMN, m', COL, 1, 5, 9);
    hide MarkColumns;
    assert Evict(DEAD_ROW, {}) == DEAD_ROW;
  }

  /** What the replica then exports: two changes, each with its entry's version, maker and place. */
  lemma ExportedBack(ch: Change)
    ensures Exports(BACK_ROW, ch) <==>
      || ch == Change(OLD_KEY, SENTINEL, Null, 3, 5, [], 3, 8)
      || ch == Change(OLD_KEY, COL, Integer(7), 1, 5, [], 3, 9)
  {
    Names();
    ExportsExactly(BACK_ROW, ch);
    hide Exports;
  }

  /** A later life from elsewhere: its sentinel takes over, and the column waits at version 0 under its own maker. */
  lemma LifeFromElsewhere()
    ensures MetaAt(Apply(ONE_COLUMN, BACK_ROW, Merge(ALIVE, UNMET), 6, 0), OLD_KEY)
      == map[SENTINEL := Entry(5, 6, [9], 2), COL := Entry(0, 6, [], 9)]
  {
    Names();
    MergedMeta(ONE_COLUMN, BACK_ROW, ALIVE, UNMET, 6, 0, OLD_KEY);
  }

  function OneText(t: Bytes, e: Entry): Db {
    Db(map[OLD_KEY := map[COL := Text(t)]], map[OLD_KEY := map[COL := e]])
  }

  const TEXT_A: Change := Change(OLD_KEY, COL, Text([97]), 1, 3, [9], 1, 4)
  const TEXT_B: Change := Change(OLD_KEY, COL, Text([98]), 1, 3, [9], 1, 4)

  /** "b" from elsewhere replaces "a" of the same version, */
  lemma GreaterTextIsWritten()
    ensures Apply(ONE_COLUMN, OneText([97], Entry(1, 1, [], 0)), Merge(TEXT_B, UNMET), 2, 0)
      == OneText([98], Entry(1, 2, [9], 4))
  {
    Names();
    ValueOrder.ExampleOrder();
    ValueOrder.CompareIsOrder(Text([98]), Text([97]));
    hide Compare, ValueOrder.Less, Apply;
    ColumnWritten([97], Entry(1, 1, [], 0), TEXT_B);
  }

  lemma ColumnWritten(t: Bytes, e: Entry, ch: Change)
    requires ch.pk == OLD_KEY && ch.name == COL && ch.cl == 1
    requires ColumnWins(Row(Some(map[COL := Text(t)]), map[COL := e]), ch)
    ensures Apply(ONE_COLUMN, OneText(t, e), Merge(ch, UNMET), 2, 0)
      == Db(map[OLD_KEY := map[COL := ch.value]], map[OLD_KEY := map[COL := Taken(ch.colVersion, 2, ch)]])
  {
    Names();
    OneTextCl(t, e);
    hide ColumnWins;
    var db := OneText(t, e);
    assert db.table[OLD_KEY][COL := ch.value] == map[COL := ch.value];
    assert Upsert(ONE_COLUMN, db.table, ch, UNMET) == map[OLD_KEY := map[COL := ch.value]];
    assert WinnerClock(MetaAt(db, OLD_KEY), COL, ch.colVersion, 2, ch) == map[COL := Taken(ch.colVersion, 2, ch)];
  }

  /** and "a" does not replace "b". */
  lemma SmallerTextIsNot()
    ensures var db := OneText([98], Entry(1, 1, [], 0)); Apply(ONE_COLUMN, db, Merge(TEXT_A, UNMET), 2, 0) == db
  {
    Names();
    ValueOrder.ExampleOrder();
    ValueOrder.CompareIsOrder(Text([97]), Text([98]));
    hide Compare, ValueOrder.Less;
    OneTextCl([98], Entry(1, 1, [], 0));
  }

  lemma OneTextCl(t: Bytes, e: Entry)
    ensures CausalLength(MetaAt(OneText(t, e), OLD_KEY)) == 1
  {
    Names();
    assert COL in MetaAt(OneText(t, e), OLD_KEY);
  }
}
