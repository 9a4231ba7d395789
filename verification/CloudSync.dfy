/**
 The extension itself, statement by statement: a replica object whose two tables and context fields
 the triggers and the merge update in place. Each entry point is proved to do to the tables exactly
 what the functions of `Replica` say.
 */
module CloudSync {
  import opened Values
  import opened Wrappers
  import opened R = Replica
  import opened Convergence
  import PkCodec

  // ---------- one more column of a trigger loop ----------

  lemma MarkMore(s: Schema, m: RowMeta, done: seq<Name>, name: Name, v: int, q: int)
    ensures MarkColumns(s, m, [], v, q) == m
    ensures MarkColumns(s, m, done + [name], v, q) ==
      RowInsertUpdate(s, MarkColumns(s, m, done, v, q), name, 1, v, q + |done|)
  {
    hide RowInsertUpdate;
    var names := done + [name];
    assert names[..|names| - 1] == done && names[|names| - 1] == name;
  }

  lemma ChangedMore(names: seq<Name>, i: nat, now: RowValues, was: RowValues)
    requires i < |names| && names[i] in now && names[i] in was
    ensures ChangedColumns(names[..i + 1], now, was) ==
      ChangedColumns(names[..i], now, was) + (if Compare(now[names[i]], was[names[i]]) != 0 then [names[i]] else [])
  {
    hide Compare;
    var more := names[..i + 1];
    assert more[..|more| - 1] == names[..i] && more[|more| - 1] == names[i];
  }

  lemma NothingChanged(now: RowValues, was: RowValues)
    ensures ChangedColumns([], now, was) == []
  {
  }

  class Replica {
    const schema: Schema
    var table: map<Pk, RowValues>
    var meta: map<Pk, RowMeta>
    var seqNo: int
    var insync: bool

    ghost function Contents(): Db
      reads this
    {
      Db(table, meta)
    }

    ghost predicate Ready()
      reads this
    {
      SchemaOk(schema) && Inv(schema, Contents()) && !insync
    }

    constructor (s: Schema)
      requires SchemaOk(s)
      ensures schema == s && Contents() == EMPTY_DB && Ready() && seqNo == 0
    {
      schema := s;
      table, meta, seqNo, insync := map[], map[], 0, false;
      new;
      forall p ensures RowInv(s, RowAt(EMPTY_DB, p)) {
        assert RowAt(EMPTY_DB, p) == Row(None, map[]);
      }
    }

    /** BUMP_SEQ: the old counter value. */
    method BumpSeq() returns (q: int)
      modifies `seqNo
      ensures q == old(seqNo) && seqNo == q + 1
    {
      q := seqNo;
      seqNo := seqNo + 1;
    }

    method SetMeta(pk: Pk, m: RowMeta)
      modifies `meta
      ensures MetaAt(Contents(), pk) == m
      ensures forall p :: p != pk ==> MetaAt(Contents(), p) == old(MetaAt(Contents(), p))
    {
      meta := meta[pk := m];
    }

    function MetaOf(pk: Pk): (m: RowMeta)
      reads this
      ensures m == MetaAt(Contents(), pk)
    {
      if pk in meta then meta[pk] else map[]
    }

    // ---------- trigger functions ----------

    /** cloudsync_insert: runs after a row was inserted into (or replaced in) the user's table. */
    method CloudsyncInsert(pk: Pk, dbVersion: int)
      modifies `meta, `seqNo
      ensures MetaAt(Contents(), pk) == InsertMeta(schema, old(MetaAt(Contents(), pk)), dbVersion, old(seqNo))
      ensures forall p :: p != pk ==> MetaAt(Contents(), p) == old(MetaAt(Contents(), p))
    {
      hide MarkColumns, RowInsertUpdate, SentinelUpdate, SentinelInsert;
      var exists_ := MetaOf(pk) != map[];
      if schema.cols == [] {
        var q := BumpSeq();
        SetMeta(pk, SentinelInsert(schema, MetaOf(pk), dbVersion, q));
      } else if exists_ {
        var q := BumpSeq();
        SetMeta(pk, SentinelUpdate(schema, MetaOf(pk), dbVersion, q));
      }
      ghost var m0, q0 := MetaOf(pk), seqNo;
      var i := 0;
      MarkMore(schema, m0, [], [], dbVersion, q0);
      while i < |schema.cols|
        invariant 0 <= i <= |schema.cols|
        invariant seqNo == q0 + i
        invariant MetaOf(pk) == MarkColumns(schema, m0, schema.cols[..i], dbVersion, q0)
        invariant forall p :: p != pk ==> MetaAt(Contents(), p) == old(MetaAt(Contents(), p))
      {
        MarkMore(schema, m0, schema.cols[..i], schema.cols[i], dbVersion, q0);
        assert schema.cols[..i + 1] == schema.cols[..i] + [schema.cols[i]];
        var q := BumpSeq();
        SetMeta(pk, RowInsertUpdate(schema, MetaOf(pk), schema.cols[i], 1, dbVersion, q));
        i := i + 1;
      }
      assert schema.cols[..i] == schema.cols;
    }

    /** cloudsync_delete: runs after a row was deleted from the user's table. */
    method CloudsyncDelete(pk: Pk, dbVersion: int)
      modifies `meta, `seqNo
      ensures MetaAt(Contents(), pk) == DeleteMeta(schema, old(MetaAt(Contents(), pk)), dbVersion, old(seqNo))
      ensures forall p :: p != pk ==> MetaAt(Contents(), p) == old(MetaAt(Contents(), p))
    {
      var q := BumpSeq();
      SetMeta(pk, RowInsertUpdate(schema, MetaOf(pk), SENTINEL, 2, dbVersion, q));
      SetMeta(pk, RowDrop(MetaOf(pk)));
    }

    /** cloudsync_update when the key changed: bury the old key, move its entries, raise the new key. */
    method MoveKey(oldPk: Pk, pk: Pk, dbVersion: int, moveSeq: Name -> int)
      requires pk != oldPk
      modifies `meta, `seqNo
      ensures seqNo == old(seqNo) + 2
      ensures MetaAt(Contents(), oldPk) == DeleteMeta(schema, old(MetaAt(Contents(), oldPk)), dbVersion, old(seqNo))
      ensures MetaAt(Contents(), pk) == MoveInMeta(schema, old(MetaAt(Contents(), pk)), old(MetaAt(Contents(), oldPk)),
                                                   dbVersion, old(seqNo) + 1, moveSeq)
      ensures forall p :: p != pk && p != oldPk ==> MetaAt(Contents(), p) == old(MetaAt(Contents(), p))
    {
      ghost var source := MetaOf(oldPk);
      var q := BumpSeq();
      SetMeta(oldPk, RowInsertUpdate(schema, MetaOf(oldPk), SENTINEL, 2, dbVersion, q));
      SetMeta(pk, MetaOf(pk) + Moved(schema, MetaOf(oldPk), dbVersion, moveSeq));
      assert Moved(schema, RowInsertUpdate(schema, source, SENTINEL, 2, dbVersion, q), dbVersion, moveSeq)
          == Moved(schema, source, dbVersion, moveSeq);
      SetMeta(oldPk, RowDrop(MetaOf(oldPk)));
      q := BumpSeq();
      SetMeta(pk, SentinelInsert(schema, MetaOf(pk), dbVersion, q));
    }

    /** The column loop of cloudsync_update: every column whose new value differs from the old one. */
    method MarkChanged(pk: Pk, now: RowValues, was: RowValues, dbVersion: int)
      requires forall n <- schema.cols :: n in now && n in was
      modifies `meta, `seqNo
      ensures MetaAt(Contents(), pk) ==
        MarkColumns(schema, old(MetaAt(Contents(), pk)), ChangedColumns(schema.cols, now, was), dbVersion, old(seqNo))
      ensures forall p :: p != pk ==> MetaAt(Contents(), p) == old(MetaAt(Contents(), p))
    {
      hide MarkColumns, ChangedColumns, Compare, RowInsertUpdate;
      var i := 0;
      ghost var done := [];
      NothingChanged(now, was);
      MarkMore(schema, MetaOf(pk), [], [], dbVersion, seqNo);
      while i < |schema.cols|
        invariant 0 <= i <= |schema.cols|
        invariant done == ChangedColumns(schema.cols[..i], now, was)
        invariant seqNo == old(seqNo) + |done|
        invariant MetaOf(pk) == MarkColumns(schema, old(MetaOf(pk)), done, dbVersion, old(seqNo))
        invariant forall p :: p != pk ==> MetaAt(Contents(), p) == old(MetaAt(Contents(), p))
      {
        var name := schema.cols[i];
        ChangedMore(schema.cols, i, now, was);
        MarkMore(schema, old(MetaOf(pk)), done, name, dbVersion, old(seqNo));
        if Compare(now[name], was[name]) != 0 {
          var q := BumpSeq();
          SetMeta(pk, RowInsertUpdate(schema, MetaOf(pk), name, 1, dbVersion, q));
          done := done + [name];
        }
        i := i + 1;
      }
      assert schema.cols[..i] == schema.cols;
    }

    // ---------- statements of the user, with their triggers ----------

    /** INSERT. The object stays ready exactly if no other row was evicted. */
    method Insert(pk: Pk, values: RowValues, orReplace: bool, evicted: set<Pk>, dbVersion: int)
      requires Ready() && OpOk(schema, Op.Insert(pk, values, orReplace, evicted))
      modifies this
      ensures !insync && (Ready() <==> !LosesRow(old(Contents()), Op.Insert(pk, values, orReplace, evicted)))
      ensures Same(Contents(),
                   Apply(schema, old(Contents()), Op.Insert(pk, values, orReplace, evicted), dbVersion, old(seqNo)))
    {
      ghost var op := Op.Insert(pk, values, orReplace, evicted);
      if !(pk in table && !orReplace) {
        table := (table - evicted)[pk := values];
        if !insync { CloudsyncInsert(pk, dbVersion); }
      }
      Refines(old(Contents()), op, dbVersion, old(seqNo));
    }

    method Delete(pk: Pk, dbVersion: int)
      requires Ready()
      modifies this
      ensures Ready()
      ensures Same(Contents(), Apply(schema, old(Contents()), Op.Delete(pk), dbVersion, old(seqNo)))
    {
      RunDelete(pk, dbVersion);
      Refines(old(Contents()), Op.Delete(pk), dbVersion, old(seqNo));
    }

    /** DELETE of one key, with the delete trigger behind it. */
    method RunDelete(pk: Pk, dbVersion: int)
      modifies this
      ensures table == old(table) - {pk} && insync == old(insync)
      ensures insync ==> meta == old(meta) && seqNo == old(seqNo)
      ensures !insync && pk in old(table) ==>
        MetaAt(Contents(), pk) == DeleteMeta(schema, old(MetaAt(Contents(), pk)), dbVersion, old(seqNo))
      ensures pk !in old(table) ==> meta == old(meta)
      ensures !insync ==> forall p :: p != pk ==> MetaAt(Contents(), p) == old(MetaAt(Contents(), p))
    {
      if pk in table {
        table := table - {pk};
        if !insync { CloudsyncDelete(pk, dbVersion); }
      }
    }

    /** The loop at the head of cloudsync_update. */
    method PrikeyChanged(now: seq<Value>, was: seq<Value>) returns (changed: bool)
      requires |now| == |was|
      ensures changed <==> !TuplesTie(was, now)
    {
      changed := false;
      var i := 0;
      while i < |now|
        invariant 0 <= i <= |now|
        invariant !changed && forall j :: 0 <= j < i ==> Compare(was[j], now[j]) == 0
      {
        CompareLaws(now[i], was[i]);
        if Compare(now[i], was[i]) != 0 {
          changed := true;
          break;
        }
        i := i + 1;
      }
    }

    /** UPDATE of the row with the key `oldKey`. The object stays ready exactly if no row vanishes unmarked. */
    method Update(oldKey: seq<Value>, newKey: seq<Value>, values: RowValues, orReplace: bool, evicted: set<Pk>,
                  moveSeq: Name -> int, dbVersion: int)
      requires Ready() && PkCodec.AllStorable(oldKey) && PkCodec.AllStorable(newKey) && |oldKey| == |newKey| <= 255
      requires OpOk(schema, UpdateOf(oldKey, newKey, values, orReplace, evicted, moveSeq))
      modifies this
      ensures !insync
      ensures (Ready() <==> !LosesRow(old(Contents()), UpdateOf(oldKey, newKey, values, orReplace, evicted, moveSeq)))
      ensures var op := UpdateOf(oldKey, newKey, values, orReplace, evicted, moveSeq);
        Same(Contents(), Apply(schema, old(Contents()), op, dbVersion, old(seqNo)))
    {
      hide PkCodec.EncodePrikey, PkCodec.AllStorable, TuplesTie, KeysTie, LosesRow, Inv;
      ghost var op := UpdateOf(oldKey, newKey, values, orReplace, evicted, moveSeq);
      var pk, newPk := PkCodec.EncodePrikey(oldKey), PkCodec.EncodePrikey(newKey);
      if pk in table && (newPk == pk || newPk !in table || orReplace) {
        LiveColumns(pk);
        KeysTieExactly(oldKey, newKey);
        var prikeyChanged := PrikeyChanged(newKey, oldKey);
        RunUpdate(pk, newPk, prikeyChanged, values, evicted, moveSeq, dbVersion);
        UpdateMatches(old(Contents()), op, dbVersion, old(seqNo));
      }
      Refines(old(Contents()), op, dbVersion, old(seqNo));
    }

    ghost function UpdateOf(oldKey: seq<Value>, newKey: seq<Value>, values: RowValues, orReplace: bool,
                            evicted: set<Pk>,
                            moveSeq: Name -> int): Op
    {
      Op.Update(PkCodec.EncodePrikey(oldKey), PkCodec.EncodePrikey(newKey), values, orReplace, evicted, moveSeq)
    }

    lemma LiveColumns(pk: Pk)
      requires Ready() && pk in table
      ensures table[pk].Keys == ColSet(schema)
    {
      assert RowInv(schema, RowAt(Contents(), pk));
    }

    /** UPDATE of a row that is there and not refused, with the update trigger behind it. */
    method RunUpdate(pk: Pk, newPk: Pk, prikeyChanged: bool, values: RowValues, evicted: set<Pk>, moveSeq: Name -> int,
                     dbVersion: int)
      requires !insync && pk in table && (forall n <- schema.cols :: n in values && n in table[pk])
      requires prikeyChanged <==> !KeysTie(pk, newPk)
      modifies this
      ensures !insync && UpdatedFrom(old(Contents()), pk, newPk, values, evicted, moveSeq, dbVersion, old(seqNo))
    {
      hide MarkColumns, ChangedColumns, DeleteMeta, MoveInMeta;
      var was := table[pk];
      table := (table - evicted - {pk})[newPk := values];
      if !insync {
        if prikeyChanged { MoveKey(pk, newPk, dbVersion, moveSeq); }
        MarkChanged(newPk, values, was, dbVersion);
      }
    }

    ghost predicate UpdatedFrom(was: Db, pk: Pk, newPk: Pk, values: RowValues, evicted: set<Pk>, moveSeq: Name -> int,
                                v: int, q: int)
      reads this
      requires pk in was.table
    {
      var changed := ChangedColumns(schema.cols, values, was.table[pk]);
      && table == (was.table - evicted - {pk})[newPk := values]
      && (if KeysTie(pk, newPk) then
            && MetaAt(Contents(), newPk) == MarkColumns(schema, MetaAt(was, newPk), changed, v, q)
            && (pk != newPk ==> MetaAt(Contents(), pk) == MetaAt(was, pk))
          else
            && MetaAt(Contents(), pk) == DeleteMeta(schema, MetaAt(was, pk), v, q)
            && MetaAt(Contents(), newPk) ==
                 MarkColumns(schema, MoveInMeta(schema, MetaAt(was, newPk), MetaAt(was, pk), v, q + 1, moveSeq),
                             changed, v, q + 2))
      && (forall p :: p != pk && p != newPk ==> MetaAt(Contents(), p) == MetaAt(was, p))
    }

    lemma UpdateMatches(was: Db, op: Op, v: int, q: int)
      requires op.Update? && !UpdateRefused(was, op)
      requires UpdatedFrom(was, op.pk, op.newPk, op.values, op.evicted, op.moveSeq, v, q)
      ensures Same(Contents(), Apply(schema, was, op, v, q))
    {
      hide MarkColumns, ChangedColumns, DeleteMeta, MoveInMeta, KeysTie, Apply;
      forall p ensures RowAt(Contents(), p) == RowAt(Apply(schema, was, op, v, q), p) {
        UpdateRow(schema, was, op, v, q, p);
      }
    }

    // ---------- merging a change ----------

    /** INSERT OR IGNORE of the bare key, with the insert trigger behind it. */
    method InsertBareRow(pk: Pk, met: Met, dbVersion: int)
      modifies this
      ensures insync == old(insync)
      ensures old(insync) ==> meta == old(meta) && seqNo == old(seqNo)
      ensures table == BareInsert(schema, old(table), pk, met)
    {
      if pk !in table && !met.ignored {
        table := table[pk := schema.defaults];
        if !insync { CloudsyncInsert(pk, dbVersion); }
      }
    }

    /** INSERT ... ON CONFLICT DO UPDATE of one column; its triggers are those of the row it hits. */
    method UpsertColumn(ch: Change, met: Met)
      requires insync
      modifies `table
      ensures table == Upsert(schema, old(table), ch, met)
    {
      var target := ch.pk;
      if met.hit.Some? && met.hit.value in table { target := met.hit.value; }
      if target in table {
        table := table[target := table[target][ch.name := ch.value]];
      } else {
        table := table[target := schema.defaults[ch.name := ch.value]];
      }
    }

    /** merge_sentinel_only_insert: the sentinel is set whether or not the insert was ignored. */
    method MergeSentinelOnlyInsert(ch: Change, cl: int, met: Met, dbVersion: int)
      modifies this
      ensures !insync && seqNo == old(seqNo)
      ensures table == BareInsert(schema, old(table), ch.pk, met)
      ensures MetaAt(Contents(), ch.pk) ==
        WinnerClock(ZeroClock(old(MetaAt(Contents(), ch.pk)), dbVersion), SENTINEL, cl, dbVersion, ch)
      ensures forall p :: p != ch.pk ==> MetaAt(Contents(), p) == old(MetaAt(Contents(), p))
    {
      insync := true;
      InsertBareRow(ch.pk, met, dbVersion);
      insync := false;
      SetMeta(ch.pk, ZeroClock(MetaOf(ch.pk), dbVersion));
      SetMeta(ch.pk, WinnerClock(MetaOf(ch.pk), SENTINEL, cl, dbVersion, ch));
    }

    /** merge_delete: rows go without the trigger, and the clock is set before the column entries are dropped. */
    method MergeDelete(ch: Change, met: Met, dbVersion: int)
      modifies this
      ensures !insync && seqNo == old(seqNo)
      ensures table == old(table) - ({ch.pk} + met.gone)
      ensures MetaAt(Contents(), ch.pk) ==
        RowDrop(WinnerClock(old(MetaAt(Contents(), ch.pk)), ch.name, ch.colVersion, dbVersion, ch))
      ensures forall p :: p != ch.pk ==> MetaAt(Contents(), p) == old(MetaAt(Contents(), p))
    {
      insync := true;
      RunDelete(ch.pk, dbVersion);
      table := table - met.gone;
      insync := false;
      SetMeta(ch.pk, WinnerClock(MetaOf(ch.pk), ch.name, ch.colVersion, dbVersion, ch));
      SetMeta(ch.pk, RowDrop(MetaOf(ch.pk)));
    }

    /**
     merge_insert_col: the column is written to whichever row the upsert hits, and its clock to the row of
     the change.
     */
    method MergeInsertCol(ch: Change, met: Met, dbVersion: int)
      modifies this
      ensures !insync && seqNo == old(seqNo)
      ensures table == Upsert(schema, old(table), ch, met)
      ensures MetaAt(Contents(), ch.pk) ==
        WinnerClock(old(MetaAt(Contents(), ch.pk)), ch.name, ch.colVersion, dbVersion, ch)
      ensures forall p :: p != ch.pk ==> MetaAt(Contents(), p) == old(MetaAt(Contents(), p))
    {
      insync := true;
      UpsertColumn(ch, met);
      insync := false;
      SetMeta(ch.pk, WinnerClock(MetaOf(ch.pk), ch.name, ch.colVersion, dbVersion, ch));
    }

    /**
     merge_did_cid_win: against a column that the row shows, the change wins exactly if it is above it in the
     order convergence is about. It wins over a column without an entry, and over one whose value is missing
     unless that has the higher version.
     */
    method MergeDidCidWin(ch: Change, met: Met) returns (wins: bool)
      ensures var row := Row(Shown(table, ch.pk, met), MetaAt(Contents(), ch.pk));
        var shown := ColAt(row, ch.name);
        if shown.Some? then wins <==> !Leq(OfChange(ch), shown.value)
        else wins <==> (ch.name in row.meta ==> row.meta[ch.name].colVersion <= ch.colVersion)
      ensures wins == ColumnWins(Row(Shown(table, ch.pk, met), MetaAt(Contents(), ch.pk)), ch)
    {
      var m := MetaOf(ch.pk);
      if ch.name !in m { return true; }
      if m[ch.name].colVersion != ch.colVersion { return ch.colVersion > m[ch.name].colVersion; }
      var pk := ch.pk;
      if pk !in table && met.shown.Some? { pk := met.shown.value; }
      if pk !in table || ch.name !in table[pk] { return true; }
      return Compare(ch.value, table[pk][ch.name]) > 0;
    }

    /**
     cloudsync_merge_insert; `dbVersion` is db_version_next of the change's own version, and `met` tells the rows of
     other keys its statements meet. The object stays ready exactly if the merge loses no row.
     */
    method MergeInsert(ch: Change, met: Met, dbVersion: int)
      requires Ready() && WellFormed(schema, ch)
      modifies this
      ensures !insync && seqNo == old(seqNo) && (Ready() <==> !LosesRow(old(Contents()), Merge(ch, met)))
      ensures Same(Contents(), Apply(schema, old(Contents()), Merge(ch, met), dbVersion, old(seqNo)))
    {
      MergeBranches(ch, met, dbVersion);
      MergedTable(old(Contents()), ch, met, dbVersion, old(seqNo));
      Refines(old(Contents()), Merge(ch, met), dbVersion, old(seqNo));
    }

    method MergeBranches(ch: Change, met: Met, dbVersion: int)
      requires !insync
      modifies this
      ensures !insync && seqNo == old(seqNo)
      ensures table == MergeTable(schema, old(table), old(MetaAt(Contents(), ch.pk)), ch, met)
      ensures MetaAt(Contents(), ch.pk) ==
        MergeMeta(old(MetaAt(Contents(), ch.pk)), old(Shown(table, ch.pk, met)), ch, dbVersion)
      ensures forall p :: p != ch.pk ==> MetaAt(Contents(), p) == old(MetaAt(Contents(), p))
    {
      hide BareInsert, Upsert, ZeroClock, ColumnWins, RowDrop, WinnerClock, Shown;
      var localCl := CausalLength(MetaOf(ch.pk));
      if localCl < 0 || ch.cl < localCl { return; }
      if ch.cl % 2 == 0 {
        if localCl == ch.cl { return; }
        MergeDelete(ch, met, dbVersion);
        return;
      }
      if ch.name == SENTINEL {
        if localCl == ch.cl { return; }
        MergeSentinelOnlyInsert(ch, ch.colVersion, met, dbVersion);
        return;
      }
      var needsResurrect := ch.cl > localCl && ch.cl % 2 == 1;
      var rowExistsLocally := localCl != 0;
      if needsResurrect && (rowExistsLocally || (!rowExistsLocally && ch.cl > 1)) {
        MergeSentinelOnlyInsert(ch, ch.cl, met, dbVersion);
      }
      var flag := MergeDidCidWin(ch, met);
      if needsResurrect || !rowExistsLocally || flag {
        MergeInsertCol(ch, met, dbVersion);
      }
    }

    lemma MergedTable(was: Db, ch: Change, met: Met, v: int, q: int)
      requires table == MergeTable(schema, was.table, MetaAt(was, ch.pk), ch, met)
      requires MetaAt(Contents(), ch.pk) == MergeMeta(MetaAt(was, ch.pk), Shown(was.table, ch.pk, met), ch, v)
      requires forall p :: p != ch.pk ==> MetaAt(Contents(), p) == MetaAt(was, p)
      ensures Same(Contents(), Apply(schema, was, Merge(ch, met), v, q))
    {
      hide MergeTable, MergeMeta;
      forall p ensures RowAt(Contents(), p) == RowAt(Apply(schema, was, Merge(ch, met), v, q), p) {
        MergedMeta(schema, was, ch, met, v, q, p);
      }
    }

    /** Reaching the contents `Apply` describes leaves the invariant as `Apply` does. */
    lemma Refines(was: Db, op: Op, v: int, q: int)
      requires SchemaOk(schema) && Inv(schema, was) && OpOk(schema, op)
      requires Same(Contents(), Apply(schema, was, op, v, q))
      ensures Inv(schema, Contents()) <==> !LosesRow(was, op)
    {
      hide Apply, RowInv, LosesRow, RowAt;
      ApplyKeeps(schema, was, op, v, q);
      SameInv(schema, Contents(), Apply(schema, was, op, v, q));
    }
  }

  lemma SameInv(s: Schema, a: Db, b: Db)
    requires Same(a, b)
    ensures Inv(s, a) <==> Inv(s, b)
  {
    hide RowInv, RowAt;
    forall p ensures RowInv(s, RowAt(a, p)) == RowInv(s, RowAt(b, p)) { assert RowAt(a, p) == RowAt(b, p); }
  }
}
