/**
 Local statements against the clock of each column: every statement moves every row forward, except a
 key change that replaces a live row which has no sentinel of its own. And what docs/PriKey.md
 promises: after a key change the other side loses the old row and gets the new one with its values.
 */
module KeyChange {
  import opened Values
  import opened Wrappers
  import opened Replica
  import opened Convergence
  import opened AntiEntropy

  /** Causal length first, then the column's version, then its value. */
  predicate Grows(was: Row, now: Row, c: Name) {
    || CausalLength(now.meta) > CausalLength(was.meta)
    || (&& CausalLength(now.meta) == CausalLength(was.meta)
        && (ColAt(was, c).Some? ==> ColAt(now, c).Some? && Leq(ColAt(was, c).value, ColAt(now, c).value)))
  }

  /** The guard: a key change that replaces a live row whose causal length is only implied. */
  predicate ReplacesUnmarkedRow(db: Db, op: Op) {
    && op.Update? && op.pk in db.table && !KeysTie(op.pk, op.newPk) && op.orReplace
    && op.newPk in db.table && SENTINEL !in MetaAt(db, op.newPk)
  }

  lemma SelfGrows(row: Row, c: Name)
    ensures Grows(row, row, c)
  {
    var x := ColAt(row, c);
    if x.Some? { LeqLaws(x.value, x.value, x.value); }
  }

  lemma InsertGrows(s: Schema, row: Row, values: RowValues, v: int, q: int, c: Name)
    requires SchemaOk(s) && RowInv(s, row) && values.Keys == ColSet(s) && c in s.cols
    ensures Grows(row, Row(Some(values), InsertMeta(s, row.meta, v, q)), c)
  {
    InsertKeeps(s, row, values, v, q);
    if row.meta != map[] {
      MarkColumnsEffect(s, SentinelUpdate(s, row.meta, v, q), s.cols, v, q + 1);
    }
  }

  lemma UpdateGrows(s: Schema, row: Row, values: RowValues, v: int, q: int, c: Name)
    requires SchemaOk(s) && RowInv(s, row) && row.live.Some? && values.Keys == ColSet(s) && c in s.cols
    ensures var m := MarkColumns(s, row.meta, ChangedColumns(s.cols, values, row.live.value), v, q);
      Grows(row, Row(Some(values), m), c)
  {
    hide MarkColumns, ChangedColumns, Grows, CausalLength, MetaInv;
    var m := MarkColumns(s, row.meta, ChangedColumns(s.cols, values, row.live.value), v, q);
    MarkedMeta(s, row.meta, row.live.value, values, v, q, c);
    UpdatedColumnGrows(row, values, m, c, Differs(c, values, row.live.value));
  }

  lemma MarkedMeta(s: Schema, meta: RowMeta, was: RowValues, values: RowValues, v: int, q: int, c: Name)
    requires SchemaOk(s) && MetaInv(s, meta) && CausalLength(meta) % 2 == 1
    ensures var m := MarkColumns(s, meta, ChangedColumns(s.cols, values, was), v, q);
      && CausalLength(m) == CausalLength(meta)
      && (c in s.cols && c in meta ==>
            c in m && m[c].colVersion == meta[c].colVersion + if Differs(c, values, was) then 1 else 0)
  {
    hide MarkColumns, ChangedColumns, Differs, MetaInv;
    var changed := ChangedColumns(s.cols, values, was);
    ChangedColumnsEffect(s.cols, values, was);
    MarkKeeps(s, meta, changed, v, q);
    MarkColumnsEffect(s, meta, changed, v, q);
  }

  lemma UpdatedColumnGrows(row: Row, values: RowValues, m: RowMeta, c: Name, changed: bool)
    requires row.live.Some? && c in values && c in row.live.value
    requires changed == (Compare(values[c], row.live.value[c]) != 0)
    requires CausalLength(m) == CausalLength(row.meta)
    requires c in row.meta ==> c in m && m[c].colVersion == row.meta[c].colVersion + if changed then 1 else 0
    ensures Grows(row, Row(Some(values), m), c)
  {
    CompareLaws(values[c], row.live.value[c]);
  }

  lemma KeyChangeGrows(s: Schema, source: Row, target: Row, values: RowValues, changed: seq<Name>, v: int, q: int,
                       moveSeq: Name -> int, c: Name)
    requires SchemaOk(s) && RowInv(s, source) && RowInv(s, target) && source.live.Some? && c in s.cols
    requires target.live.Some? ==> SENTINEL in target.meta
    requires changed == ChangedColumns(s.cols, values, source.live.value)
    ensures var m := MarkColumns(s, MoveInMeta(s, target.meta, source.meta, v, q, moveSeq), changed, v, q + 1);
      Grows(target, Row(Some(values), m), c)
  {
    hide ChangedColumns;
    ChangedColumnsEffect(s.cols, values, source.live.value);
    var moved := MoveInMeta(s, target.meta, source.meta, v, q, moveSeq);
    MoveInKeeps(s, source, target, v, q, moveSeq);
    assert SENTINEL in moved;
    MarkKeeps(s, moved, changed, v, q + 1);
  }

  lemma MergeGrows(s: Schema, row: Row, ch: Change, v: int, c: Name)
    requires SchemaOk(s) && RowInv(s, row) && WellFormed(s, ch) && c in s.cols
    ensures Grows(row, MergeRow(s, row, ch, v), c)
  {
    hide MergeRow, ColAt;
    MergeKeeps(s, row, ch, v);
    MergeColumn(s, row, ch, v, c);
    var was := ColAt(row, c);
    if was.Some? { LeqLaws(was.value, OfChange(ch), was.value); }
  }

  /**
   Outside the guard, every statement and merge that loses no row and redirects no column moves every column
   of every row forward.
   */
  lemma StepGrows(s: Schema, db: Db, op: Op, v: int, q: int, p: Pk, c: Name)
    requires SchemaOk(s) && Inv(s, db) && OpOk(s, op) && c in s.cols
    requires !ReplacesUnmarkedRow(db, op) && !LosesRow(db, op)
    requires !Redirects(db, op)
    ensures Grows(RowAt(db, p), RowAt(Apply(s, db, op, v, q), p), c)
  {
    hide MergeRow, Grows, MarkColumns, InsertMeta, DeleteMeta, MoveInMeta, ChangedColumns, MetaInv;
    assert RowInv(s, RowAt(db, p)) && !Vanishes(db, op, p);
    var row, row' := RowAt(db, p), RowAt(Apply(s, db, op, v, q), p);
    if row' == row {
      SelfGrows(row, c);
    } else {
      match op
      case Insert(pk, values, _, _) =>
        InsertGrows(s, row, values, v, q, c);
        assert row' == Row(Some(values), InsertMeta(s, row.meta, v, q));
      case Delete(pk) =>
        DeleteGrows(s, row, v, q, c);
        assert row' == Row(None, DeleteMeta(s, row.meta, v, q));
      case Merge(ch, met) =>
        assert RowInv(s, RowAt(db, ch.pk));
        MergeGrows(s, row, ch, v, c);
        MergeRowAt(s, db, ch, met, v, q, p);
      case Update(_, _, _, _, _, _) => UpdateStepGrows(s, db, op, v, q, p, c);
    }
  }

  lemma UpdateStepGrows(s: Schema, db: Db, op: Op, v: int, q: int, p: Pk, c: Name)
    requires SchemaOk(s) && Inv(s, db) && OpOk(s, op) && c in s.cols
    requires !ReplacesUnmarkedRow(db, op) && !LosesRow(db, op)
    requires op.Update? && !UpdateRefused(db, op) && RowAt(Apply(s, db, op, v, q), p) != RowAt(db, p)
    ensures Grows(RowAt(db, p), RowAt(Apply(s, db, op, v, q), p), c)
  {
    hide Grows, MarkColumns, DeleteMeta, MoveInMeta, ChangedColumns, MetaInv, KeysTie, Apply;
    UpdateRow(s, db, op, v, q, p);
    assert RowInv(s, RowAt(db, p)) && RowInv(s, RowAt(db, op.pk)) && !Vanishes(db, op, p) && !Vanishes(db, op, op.pk);
    TiedMoveVanishes(db, op);
    var row, row' := RowAt(db, p), RowAt(Apply(s, db, op, v, q), p);
    var changed := ChangedColumns(s.cols, op.values, db.table[op.pk]);
    if KeysTie(op.pk, op.newPk) {
      UpdateGrows(s, row, op.values, v, q, c);
      assert row' == Row(Some(op.values), MarkColumns(s, row.meta, changed, v, q));
    } else if p == op.newPk {
      KeyChangeGrows(s, RowAt(db, op.pk), row, op.values, changed, v, q + 1, op.moveSeq, c);
      assert row' == Row(Some(op.values),
                         MarkColumns(s, MoveInMeta(s, row.meta, MetaAt(db, op.pk), v, q + 1, op.moveSeq), changed, v,
                                     q + 2));
    } else {
      DeleteGrows(s, row, v, q, c);
      assert row' == Row(None, DeleteMeta(s, row.meta, v, q));
    }
  }

  lemma DeleteGrows(s: Schema, row: Row, v: int, q: int, c: Name)
    requires SchemaOk(s) && RowInv(s, row) && row.live.Some?
    ensures Grows(row, Row(None, DeleteMeta(s, row.meta, v, q)), c)
  {
    DeleteKeeps(s, row, v, q);
  }

  lemma ReplacedMeta(s: Schema, source: Row, target: Row, values: RowValues, v: int, q: int, moveSeq: Name -> int,
                     c: Name)
    requires SchemaOk(s) && RowInv(s, source) && RowInv(s, target) && source.live.Some? && target.live.Some?
    requires SENTINEL !in target.meta && values.Keys == ColSet(s) && c in s.cols
    ensures var moved := MoveInMeta(s, target.meta, source.meta, v, q, moveSeq);
      var r := MarkColumns(s, moved, ChangedColumns(s.cols, values, source.live.value), v, q + 1);
      && CausalLength(r) == 1
      && var bump := if Differs(c, values, source.live.value) then 1 else 0;
         var base := if c in source.meta || c !in target.meta then 1 else target.meta[c].colVersion;
         c in target.meta ==> c in r && r[c].colVersion == base + bump
  {
    hide ChangedColumns, MarkColumns;
    var changed := ChangedColumns(s.cols, values, source.live.value);
    ChangedColumnsEffect(s.cols, values, source.live.value);
    var moved := MoveInMeta(s, target.meta, source.meta, v, q, moveSeq);
    assert SENTINEL in moved && SENTINEL !in s.cols;
    MarkColumnsEffect(s, moved, changed, v, q + 1);
  }

  /**
   Under the guard a column moves forward exactly if it has no entry at the target, or: without an entry at
   the source, the statement changes its value or brings one not less than the value replaced; with an entry
   at the source, the version replaced is below 1 (2 if the value changes), or is that and the value is not less.
   */
  lemma ReplacementGrowsExactly(s: Schema, source: Row, target: Row, values: RowValues, v: int, q: int,
                                moveSeq: Name -> int, c: Name)
    requires SchemaOk(s) && RowInv(s, source) && RowInv(s, target) && source.live.Some? && target.live.Some?
    requires SENTINEL !in target.meta && values.Keys == ColSet(s) && c in s.cols
    ensures var moved := MoveInMeta(s, target.meta, source.meta, v, q, moveSeq);
      var r := MarkColumns(s, moved, ChangedColumns(s.cols, values, source.live.value), v, q + 1);
      Grows(target, Row(Some(values), r), c)
      <==> (c in target.meta ==>
              var differs, version := Differs(c, values, source.live.value), target.meta[c].colVersion;
              var notLess := Compare(target.live.value[c], values[c]) <= 0;
              if c !in source.meta then differs || notLess
              else version < (if differs then 2 else 1) || (version == (if differs then 2 else 1) && notLess))
  {
    hide ChangedColumns, MarkColumns, MoveInMeta;
    ReplacedMeta(s, source, target, values, v, q, moveSeq, c);
  }

  /** Rows 1 and 2, live and without a sentinel; row 2 has been updated once. */
  const TWO_ROWS: Db := Db(
    map[[1] := map[COL := Integer(5)], [2] := map[COL := Integer(9)]],
    map[[1] := map[COL := Entry(1, 1, [], 0)], [2] := map[COL := Entry(2, 2, [], 0)]])

  const REPLACE_TWO: Op := Update([1], [2], map[COL := Integer(5)], true, {}, _ => 0)

  /** Replacing row 2 by row 1 takes row 2's column back to version 1 in the same life. */
  lemma ReplacedRowGoesBack()
    ensures SchemaOk(ONE_COLUMN) && Inv(ONE_COLUMN, TWO_ROWS) && OpOk(ONE_COLUMN, REPLACE_TWO)
    ensures ReplacesUnmarkedRow(TWO_ROWS, REPLACE_TWO)
    ensures ColAt(RowAt(TWO_ROWS, [2]), COL) == Some(Clocked(2, Integer(9)))
    ensures var row := RowAt(Apply(ONE_COLUMN, TWO_ROWS, REPLACE_TWO, 3, 0), [2]);
      && ColAt(row, COL) == Some(Clocked(1, Integer(5)))
      && CausalLength(row.meta) == CausalLength(MetaAt(TWO_ROWS, [2])) == 1
    ensures !Grows(RowAt(TWO_ROWS, [2]), RowAt(Apply(ONE_COLUMN, TWO_ROWS, REPLACE_TWO, 3, 0), [2]), COL)
  {
    assert |COL| == 1 && COL != SENTINEL;
    forall p ensures RowInv(ONE_COLUMN, RowAt(TWO_ROWS, p)) { TwoRowsOk(p); }
    assert [COL][..0] == [];
    assert Compare(Integer(5), Integer(5)) == 0;
    assert ChangedColumns([COL], map[COL := Integer(5)], map[COL := Integer(5)]) == [];
    var moved := MoveInMeta(ONE_COLUMN, MetaAt(TWO_ROWS, [2]), MetaAt(TWO_ROWS, [1]), 3, 1, _ => 0);
    assert COL in moved && moved[COL] == Entry(1, 3, [], 0) && moved[SENTINEL].colVersion == 1;
  }

  lemma TwoRowsOk(p: Pk)
    ensures RowInv(ONE_COLUMN, RowAt(TWO_ROWS, p))
  {
    assert |COL| == 1 && COL != SENTINEL;
    if p == [1] {
      assert COL in TWO_ROWS.meta[p];
    } else if p == [2] {
      assert COL in TWO_ROWS.meta[p];
    }
  }

  /** A replica behind in row `p` takes over every column the exporter holds with a version of its own. */
  lemma CatchUp(sx: Schema, x: Db, ex: seq<Change>, sy: Schema, y: Db, vy: seq<Turn>, p: Pk, c: Name)
    requires SchemaOk(sx) && SchemaOk(sy) && sx.cols == sy.cols && Inv(sx, x) && Inv(sy, y)
    requires Unrestricted(x) && IsExport(x, ex) && |vy| == |ex| && c in sx.cols && Undisturbed(sy, y, ex, vy)
    requires CausalLength(MetaAt(y, p)) < CausalLength(MetaAt(x, p)) && CausalLength(MetaAt(x, p)) % 2 == 1
    requires ColAt(RowAt(x, p), c).Some? && ColAt(RowAt(x, p), c).value.version >= 1
    ensures ColAt(RowAt(Deliver(sy, y, ex, vy), p), c) == ColAt(RowAt(x, p), c)
  {
    hide Apply, MergeRow, ColAt, Deliver, MaxCl, Unrestricted, IsExport, RowInv, Inv, Undisturbed;
    ExchangeCl(sy, y, ex, vy, sx, x, p);
    DeliverColumn(sy, y, ex, vy, p, c);
    ExportContends(sx, x, ex, p, c);
  }

  /**
   docs/PriKey.md: a row changes its key on one replica to one neither has used; once the other, not
   ahead on the old row, has merged the export, the old row is gone there and the new row is present
   with the value of every column that was tracked or changed.
   */
  lemma KeyChangePropagates(
    sx: Schema, x: Db, op: Op, v: int, q: int, ex: seq<Change>, sy: Schema, y: Db, vy: seq<Turn>, c: Name)
    requires SchemaOk(sx) && SchemaOk(sy) && sx.cols == sy.cols && Inv(sx, x) && Inv(sy, y) && OpOk(sx, op)
    requires op.Update? && op.pk in x.table && !KeysTie(op.pk, op.newPk) && !LosesRow(x, op)
    requires MetaAt(x, op.newPk) == MetaAt(y, op.newPk) == map[]
    requires CausalLength(MetaAt(y, op.pk)) <= CausalLength(MetaAt(x, op.pk))
    requires var x' := Apply(sx, x, op, v, q); Unrestricted(x') && IsExport(x', ex)
    requires |vy| == |ex| && Undisturbed(sy, y, ex, vy)
    requires c in sx.cols && (c in MetaAt(x, op.pk) || Differs(c, op.values, x.table[op.pk]))
    ensures var y' := Deliver(sy, y, ex, vy);
      && op.pk !in y'.table
      && op.newPk in y'.table && c in y'.table[op.newPk] && y'.table[op.newPk][c] == op.values[c]
  {
    hide MergeRow, Deliver, MaxCl, Unrestricted, IsExport, Apply, RowInv, Undisturbed, LosesNone;
    var x' := Apply(sx, x, op, v, q);
    ApplyKeeps(sx, x, op, v, q);
    KeyChangeRows(sx, x, op, v, q, c);
    assert RowAt(x', op.pk).meta == MetaAt(x', op.pk) && RowAt(x', op.newPk).meta == MetaAt(x', op.newPk);
    ExchangeCl(sy, y, ex, vy, sx, x', op.pk);
    ExchangeCl(sy, y, ex, vy, sx, x', op.newPk);
    UndisturbedLosesNone(sy, y, ex, vy);
    ExchangePresence(sy, y, ex, vy, sx, x', op.pk);
    ExchangePresence(sy, y, ex, vy, sx, x', op.newPk);
    CatchUp(sx, x', ex, sy, y, vy, op.newPk, c);
  }

  /** The two rows a key change writes, when it is not refused. */
  lemma KeyChangeRowsAt(s: Schema, x: Db, op: Op, v: int, q: int)
    requires op.Update? && op.pk in x.table && !KeysTie(op.pk, op.newPk) && (op.newPk in x.table ==> op.orReplace)
    ensures var x' := Apply(s, x, op, v, q);
      var moved := MoveInMeta(s, MetaAt(x, op.newPk), MetaAt(x, op.pk), v, q + 1, op.moveSeq);
      && RowAt(x', op.pk) == Row(None, DeleteMeta(s, MetaAt(x, op.pk), v, q))
      && RowAt(x', op.newPk) ==
           Row(Some(op.values), MarkColumns(s, moved, ChangedColumns(s.cols, op.values, x.table[op.pk]), v, q + 2))
  {
    hide MarkColumns, ChangedColumns, MoveInMeta, DeleteMeta;
  }

  lemma KeyChangeRows(s: Schema, x: Db, op: Op, v: int, q: int, c: Name)
    requires SchemaOk(s) && Inv(s, x) && OpOk(s, op)
    requires op.Update? && op.pk in x.table && !KeysTie(op.pk, op.newPk) && MetaAt(x, op.newPk) == map[]
    requires c in s.cols && (c in MetaAt(x, op.pk) || Differs(c, op.values, x.table[op.pk]))
    ensures var x' := Apply(s, x, op, v, q);
      && CausalLength(RowAt(x', op.pk).meta) == CausalLength(MetaAt(x, op.pk)) + 1
      && CausalLength(RowAt(x', op.pk).meta) % 2 == 0
      && CausalLength(RowAt(x', op.newPk).meta) == 1
      && ColAt(RowAt(x', op.newPk), c).Some?
      && ColAt(RowAt(x', op.newPk), c).value.version >= 1
      && ColAt(RowAt(x', op.newPk), c).value.value == op.values[c]
  {
    hide Apply, MarkColumns, ChangedColumns, DeleteMeta, MoveInMeta, MetaInv, Differs;
    var source, target := RowAt(x, op.pk), RowAt(x, op.newPk);
    assert RowInv(s, source) && RowInv(s, target) && target.meta == map[];
    assert source.live.Some? && source.live.value == x.table[op.pk];
    assert op.newPk !in x.table;
    KeyChangeRowsAt(s, x, op, v, q);
    DeleteKeeps(s, source, v, q);
    FreshRow(s, source, op.values, v, q + 1, op.moveSeq, c);
  }

  lemma FreshRow(s: Schema, source: Row, values: RowValues, v: int, q: int, moveSeq: Name -> int, c: Name)
    requires SchemaOk(s) && RowInv(s, source) && source.live.Some? && values.Keys == ColSet(s)
    requires c in s.cols && (c in source.meta || Differs(c, values, source.live.value))
    ensures var moved := MoveInMeta(s, map[], source.meta, v, q, moveSeq);
      var r := MarkColumns(s, moved, ChangedColumns(s.cols, values, source.live.value), v, q + 1);
      CausalLength(r) == 1 && c in r && r[c].colVersion >= 1
  {
    hide ChangedColumns, MarkColumns;
    var changed := ChangedColumns(s.cols, values, source.live.value);
    ChangedColumnsEffect(s.cols, values, source.live.value);
    MarkColumnsEffect(s, MoveInMeta(s, map[], source.meta, v, q, moveSeq), changed, v, q + 1);
  }
}
