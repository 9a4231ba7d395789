/**
 One replica of one synchronised table under the causal-length-set algorithm: the user's table,
 the `_cloudsync` meta table beside it, the change-tracking triggers and the merge of one change.

 What the SQL statements do to one primary key is a function on its row or its entries; `Apply` puts these
 together, with the rows of other keys that a statement may meet through another uniqueness constraint.
 */
module Replica {
  import opened Values
  import opened Wrappers
  import PkCodec

  type Name = Bytes
  type Pk = Bytes
  type SiteId = Bytes

  /** __[RIP]__ */
  const SENTINEL: Name := [95, 95, 91, 82, 73, 80, 93, 95, 95]

  /** A row of the meta table; its key is (primary key, column name). */
  datatype Entry = Entry(colVersion: int, dbVersion: int, site: SiteId, seqNo: int)

  type RowMeta = map<Name, Entry>
  type RowValues = map<Name, Value>

  /** Everything both tables hold about one primary key. */
  datatype Row = Row(live: Option<RowValues>, meta: RowMeta)

  /** The non-key columns in cid order, the defaults a bare insert fills in, and this replica's id. */
  datatype Schema = Schema(cols: seq<Name>, defaults: RowValues, site: SiteId)

  /** One row of the cloudsync_changes virtual table. */
  datatype Change = Change(
    pk: Pk, name: Name, value: Value, colVersion: int, dbVersion: int, site: SiteId, cl: int, seqNo: int)

  function ColSet(s: Schema): set<Name> {
    set c | c in s.cols
  }

  ghost predicate SchemaOk(s: Schema) {
    && SENTINEL !in s.cols
    && (forall i, j :: 0 <= i < j < |s.cols| ==> s.cols[i] != s.cols[j])
    && s.defaults.Keys == ColSet(s)
  }

  // ---------- when a key counts as changed ----------

  /** Every pair of key values compares equal, as the loop at the head of cloudsync_update asks. */
  predicate TuplesTie(a: seq<Value>, b: seq<Value>) {
    |a| == |b| && forall i :: 0 <= i < |a| ==> Compare(a[i], b[i]) == 0
  }

  /** The same question about two encoded keys. */
  predicate KeysTie(a: Pk, b: Pk) {
    var x, y := PkCodec.DecodePrikey(a), PkCodec.DecodePrikey(b);
    a == b || (x.Some? && y.Some? && TuplesTie(x.value.0, y.value.0))
  }

  lemma KeysTieExactly(a: seq<Value>, b: seq<Value>)
    requires PkCodec.AllStorable(a) && PkCodec.AllStorable(b) && |a| <= 255 && |b| <= 255
    ensures KeysTie(PkCodec.EncodePrikey(a), PkCodec.EncodePrikey(b)) <==> TuplesTie(a, b)
    ensures PkCodec.EncodePrikey(a) == PkCodec.EncodePrikey(b) <==> a == b
  {
    PkCodec.PrikeyInjective(a, b);
    PkCodec.PrikeyRoundTrip(a);
    PkCodec.PrikeyRoundTrip(b);
    hide PkCodec.EncodePrikey, PkCodec.DecodePrikey, Compare;
    if a == b {
      forall i | 0 <= i < |a| ensures Compare(a[i], b[i]) == 0 { CompareLaws(a[i], b[i]); }
    }
  }

  /** Over canonical key values only equal keys tie. */
  lemma CanonicalKeysTie(a: seq<Value>, b: seq<Value>)
    requires (forall v <- a :: Canonical(v)) && (forall v <- b :: Canonical(v))
    ensures TuplesTie(a, b) <==> a == b
  {
    forall i | 0 <= i < |a| && i < |b| ensures Compare(a[i], b[i]) == 0 <==> a[i] == b[i] { CanonicalTie(a[i], b[i]); }
  }

  // ---------- the SQL statements on the meta entries of one primary key ----------

  /** SELECT COALESCE(version of the sentinel, 1 if there is any entry), 0 when both are missing. */
  function CausalLength(m: RowMeta): int {
    if SENTINEL in m then m[SENTINEL].colVersion else if m == map[] then 0 else 1
  }

  function NextOdd(n: int): int {
    if n % 2 == 0 then n + 1 else n + 2
  }

  /** A row comes back to life with the least causal length that is odd and greater than the one it had. */
  lemma NextOddIsLeast(n: int, k: int)
    ensures NextOdd(n) > n && NextOdd(n) % 2 == 1
    ensures k > n && k % 2 == 1 ==> NextOdd(n) <= k
  {
  }

  function SentinelUpdate(s: Schema, m: RowMeta, v: int, q: int): RowMeta {
    if SENTINEL in m then m[SENTINEL := Entry(NextOdd(m[SENTINEL].colVersion), v, s.site, q)] else m
  }

  function SentinelInsert(s: Schema, m: RowMeta, v: int, q: int): RowMeta {
    m[SENTINEL := Entry(if SENTINEL in m then NextOdd(m[SENTINEL].colVersion) else 1, v, s.site, q)]
  }

  function RowInsertUpdate(s: Schema, m: RowMeta, name: Name, first: int, v: int, q: int): RowMeta {
    m[name := Entry(if name in m then m[name].colVersion + 1 else first, v, s.site, q)]
  }

  function RowDrop(m: RowMeta): RowMeta {
    map n | n in m && n == SENTINEL :: m[n]
  }

  function WinnerClock(m: RowMeta, name: Name, version: int, v: int, ch: Change): RowMeta {
    m[name := Entry(version, v, ch.site, ch.seqNo)]
  }

  function ZeroClock(m: RowMeta, v: int): RowMeta {
    map n | n in m :: if n == SENTINEL then m[n] else m[n].(colVersion := 0, dbVersion := v)
  }

  /** The entries that follow a primary-key change, as they arrive at the new key. */
  function Moved(s: Schema, m: RowMeta, v: int, moveSeq: Name -> int): RowMeta {
    map n | n in m && n != SENTINEL :: Entry(1, v, s.site, moveSeq(n))
  }

  /** The trigger loops: one insert-or-bump per column, each with its own sequence number. */
  function MarkColumns(s: Schema, m: RowMeta, names: seq<Name>, v: int, q: int): RowMeta
    decreases |names|
  {
    if names == [] then m
    else
      var k := |names| - 1;
      RowInsertUpdate(s, MarkColumns(s, m, names[..k], v, q), names[k], 1, v, q + k)
  }

  predicate Differs(n: Name, now: RowValues, was: RowValues) {
    n in now && n in was && Compare(now[n], was[n]) != 0
  }

  /** The columns whose new value differs from the old one. */
  function ChangedColumns(names: seq<Name>, now: RowValues, was: RowValues): seq<Name>
    decreases |names|
  {
    if names == [] then []
    else
      var k := |names| - 1;
      ChangedColumns(names[..k], now, was) + if Differs(names[k], now, was) then [names[k]] else []
  }

  // ---------- what each operation makes of a row ----------

  function InsertMeta(s: Schema, m: RowMeta, v: int, q: int): RowMeta {
    if s.cols == [] then SentinelInsert(s, m, v, q)
    else if m != map[] then MarkColumns(s, SentinelUpdate(s, m, v, q), s.cols, v, q + 1)
    else MarkColumns(s, m, s.cols, v, q)
  }

  function DeleteMeta(s: Schema, m: RowMeta, v: int, q: int): RowMeta {
    RowDrop(RowInsertUpdate(s, m, SENTINEL, 2, v, q))
  }

  function MoveInMeta(s: Schema, target: RowMeta, source: RowMeta, v: int, q: int, moveSeq: Name -> int): RowMeta {
    SentinelInsert(s, target + Moved(s, source, v, moveSeq), v, q)
  }

  /** merge_sentinel_only_insert: insert the bare row unless it is there, zero its clocks, set the sentinel. */
  function ResurrectRow(s: Schema, row: Row, cl: int, v: int, ch: Change): Row {
    Row(Some(if row.live.Some? then row.live.value else s.defaults),
        WinnerClock(ZeroClock(row.meta, v), SENTINEL, cl, v, ch))
  }

  /** merge_insert_col: write the column, inserting the row if it is not there, and take its clock. */
  function WriteColumn(s: Schema, row: Row, v: int, ch: Change): Row {
    Row(Some((if row.live.Some? then row.live.value else s.defaults)[ch.name := ch.value]),
        WinnerClock(row.meta, ch.name, ch.colVersion, v, ch))
  }

  /** merge_did_cid_win: the higher column version wins, then the greater value; a missing side loses. */
  predicate ColumnWins(row: Row, ch: Change) {
    if ch.name !in row.meta then true
    else if row.meta[ch.name].colVersion != ch.colVersion then ch.colVersion > row.meta[ch.name].colVersion
    else if row.live.None? || ch.name !in row.live.value then true
    else Compare(ch.value, row.live.value[ch.name]) > 0
  }

  /** cloudsync_merge_insert on the row the change names, when its statements meet no other row. */
  function MergeRow(s: Schema, row: Row, ch: Change, v: int): Row {
    var local := CausalLength(row.meta);
    if local < 0 || ch.cl < local then row
    else if ch.cl % 2 == 0 then
      if ch.cl == local then row
      else Row(None, RowDrop(WinnerClock(row.meta, ch.name, ch.colVersion, v, ch)))
    else if ch.name == SENTINEL then
      if ch.cl == local then row else ResurrectRow(s, row, ch.colVersion, v, ch)
    else
      var needsResurrect := ch.cl > local;
      var row' := if needsResurrect && (local != 0 || ch.cl > 1) then ResurrectRow(s, row, ch.cl, v, ch) else row;
      if needsResurrect || local == 0 || ColumnWins(row', ch) then WriteColumn(s, row', v, ch) else row'
  }

  // ---------- the whole table ----------

  datatype Db = Db(table: map<Pk, RowValues>, meta: map<Pk, RowMeta>)

  function MetaAt(db: Db, pk: Pk): RowMeta {
    if pk in db.meta then db.meta[pk] else map[]
  }

  function RowAt(db: Db, pk: Pk): Row {
    Row(if pk in db.table then Some(db.table[pk]) else None, MetaAt(db, pk))
  }

  function Put(db: Db, pk: Pk, row: Row): (r: Db)
    ensures forall p :: RowAt(r, p) == if p == pk then row else RowAt(db, p)
  {
    Db(if row.live.Some? then db.table[pk := row.live.value] else db.table - {pk}, db.meta[pk := row.meta])
  }

  /** Same contents: a key with no entries and a key that is not listed are the same thing. */
  ghost predicate Same(a: Db, b: Db) {
    forall p :: RowAt(a, p) == RowAt(b, p)
  }

  // ---------- a merge, and the rows of other keys that its statements meet ----------

  /**
   How another UNIQUE constraint, or keys that SQL holds equal although they are encoded differently, make
   the statements of a merge meet rows of other keys. `ignored`: INSERT OR IGNORE does not insert the missing
   row. `hit`: INSERT ... ON CONFLICT DO UPDATE, which names no conflict target, updates that row. `gone`:
   rows that the DELETE takes along. `shown`: the row whose value is read when there is none of the own key.
   */
  datatype Met = Met(ignored: bool, hit: Option<Pk>, gone: set<Pk>, shown: Option<Pk>)

  const UNMET: Met := Met(false, None, {}, None)

  function BareInsert(s: Schema, table: map<Pk, RowValues>, pk: Pk, met: Met): map<Pk, RowValues> {
    if pk in table || met.ignored then table else table[pk := s.defaults]
  }

  /** The row that the upsert for a key writes to. */
  function Target(table: map<Pk, RowValues>, pk: Pk, met: Met): Pk {
    if met.hit.Some? && met.hit.value in table then met.hit.value else pk
  }

  function Upsert(s: Schema, table: map<Pk, RowValues>, ch: Change, met: Met): map<Pk, RowValues> {
    var t := Target(table, ch.pk, met);
    table[t := (if t in table then table[t] else s.defaults)[ch.name := ch.value]]
  }

  /** The values that merge_did_cid_win reads the local one from. */
  function Shown(table: map<Pk, RowValues>, pk: Pk, met: Met): Option<RowValues> {
    if pk in table then Some(table[pk])
    else if met.shown.Some? && met.shown.value in table then Some(table[met.shown.value])
    else None
  }

  /** Both steps of a merge are needed to bring the row to life: it has been here before, or it has died elsewhere. */
  predicate Resurrects(local: int, ch: Change) {
    ch.cl > local && (local != 0 || ch.cl > 1)
  }

  /** The change is a column that is written to the user's table. */
  predicate Writes(m: RowMeta, shown: Option<RowValues>, ch: Change) {
    ch.cl > CausalLength(m) || CausalLength(m) == 0 || ColumnWins(Row(shown, m), ch)
  }

  /** What cloudsync_merge_insert makes of the user's table. */
  function MergeTable(s: Schema, table: map<Pk, RowValues>, m: RowMeta, ch: Change, met: Met): map<Pk, RowValues> {
    var local := CausalLength(m);
    if local < 0 || ch.cl < local then table
    else if ch.cl % 2 == 0 then
      if ch.cl == local then table else table - ({ch.pk} + met.gone)
    else if ch.name == SENTINEL then
      if ch.cl == local then table else BareInsert(s, table, ch.pk, met)
    else
      var table' := if Resurrects(local, ch) then BareInsert(s, table, ch.pk, met) else table;
      if Writes(m, Shown(table, ch.pk, met), ch) then Upsert(s, table', ch, met) else table'
  }

  /** And of the entries of the row it names. */
  function MergeMeta(m: RowMeta, shown: Option<RowValues>, ch: Change, v: int): RowMeta {
    var local := CausalLength(m);
    if local < 0 || ch.cl < local then m
    else if ch.cl % 2 == 0 then
      if ch.cl == local then m else RowDrop(WinnerClock(m, ch.name, ch.colVersion, v, ch))
    else if ch.name == SENTINEL then
      if ch.cl == local then m else WinnerClock(ZeroClock(m, v), SENTINEL, ch.colVersion, v, ch)
    else
      var m' := if Resurrects(local, ch) then WinnerClock(ZeroClock(m, v), SENTINEL, ch.cl, v, ch) else m;
      if Writes(m, shown, ch) then WinnerClock(m', ch.name, ch.colVersion, v, ch) else m'
  }

  function MergeDb(s: Schema, db: Db, ch: Change, met: Met, v: int): Db {
    var m := MetaAt(db, ch.pk);
    Db(MergeTable(s, db.table, m, ch, met), db.meta[ch.pk := MergeMeta(m, Shown(db.table, ch.pk, met), ch, v)])
  }

  /**
   The statements that reach the triggers, and the merge. `dbv` is what db_version_next returned for
   the statement, `seq` the sequence counter before it, `moveSeq` what cloudsync_seq() yielded for
   each entry moved by a key change (how often SQLite evaluates it is SQLite's choice). `evicted` are
   rows that OR REPLACE removed because of another constraint than the encoded key, as `met` tells of a
   merge. No trigger runs for them.
   */
  datatype Op =
    | Insert(pk: Pk, values: RowValues, orReplace: bool, evicted: set<Pk>)
    | Update(pk: Pk, newPk: Pk, values: RowValues, orReplace: bool, evicted: set<Pk>, moveSeq: Name -> int)
    | Delete(pk: Pk)
    | Merge(ch: Change, met: Met)

  ghost predicate OpOk(s: Schema, op: Op) {
    match op
    case Insert(_, values, orReplace, evicted) => values.Keys == ColSet(s) && (!orReplace ==> evicted == {})
    case Update(_, _, values, orReplace, evicted, _) => values.Keys == ColSet(s) && (!orReplace ==> evicted == {})
    case Delete(_) => true
    case Merge(ch, _) => WellFormed(s, ch)
  }

  /** A sentinel carries the causal length itself, and only a sentinel may carry an even one. */
  ghost predicate WellFormed(s: Schema, ch: Change) {
    && ch.cl >= 1
    && ch.colVersion >= 0
    && (ch.name == SENTINEL || ch.name in s.cols)
    && (ch.name == SENTINEL ==> ch.colVersion == ch.cl)
    && (ch.cl % 2 == 0 ==> ch.name == SENTINEL)
  }

  ghost predicate MetaInv(s: Schema, m: RowMeta) {
    && m.Keys <= ColSet(s) + {SENTINEL}
    && (forall n <- m :: m[n].colVersion >= 0)
    && (SENTINEL in m ==> m[SENTINEL].colVersion >= 1)
    && (SENTINEL in m && m[SENTINEL].colVersion % 2 == 0 ==> m.Keys == {SENTINEL})
  }

  /** A row is in the user's table exactly when its causal length is odd. */
  ghost predicate RowInv(s: Schema, row: Row) {
    && MetaInv(s, row.meta)
    && (row.live.Some? <==> CausalLength(row.meta) % 2 == 1)
    && (row.live.Some? ==> row.live.value.Keys == ColSet(s))
  }

  ghost predicate Inv(s: Schema, db: Db) {
    forall p :: RowInv(s, RowAt(db, p))
  }

  /** Rows leave the user's table; the meta table does not hear of it. */
  function Evict(db: Db, gone: set<Pk>): (r: Db)
    ensures forall p :: RowAt(r, p) == if p in gone then RowAt(db, p).(live := None) else RowAt(db, p)
  {
    Db(db.table - gone, db.meta)
  }

  function Apply(s: Schema, db: Db, op: Op, v: int, q: int): Db {
    match op
    case Insert(pk, values, orReplace, evicted) =>
      if pk in db.table && !orReplace then db
      else Put(Evict(db, evicted), pk, Row(Some(values), InsertMeta(s, MetaAt(db, pk), v, q)))
    case Delete(pk) =>
      if pk !in db.table then db
      else Put(db, pk, Row(None, DeleteMeta(s, MetaAt(db, pk), v, q)))
    case Merge(ch, met) =>
      MergeDb(s, db, ch, met, v)
    case Update(pk, newPk, values, orReplace, evicted, moveSeq) =>
      if UpdateRefused(db, op) then db
      else
        var rest := Evict(db, evicted + {pk});
        var changed := ChangedColumns(s.cols, values, db.table[pk]);
        if KeysTie(pk, newPk) then
          Put(rest, newPk, Row(Some(values), MarkColumns(s, MetaAt(db, newPk), changed, v, q)))
        else
          var moved := MoveInMeta(s, MetaAt(db, newPk), MetaAt(db, pk), v, q + 1, moveSeq);
          Put(Put(rest, pk, Row(None, DeleteMeta(s, MetaAt(db, pk), v, q))),
              newPk, Row(Some(values), MarkColumns(s, moved, changed, v, q + 2)))
  }

  /** An update, row by row. */
  lemma UpdateRow(s: Schema, db: Db, op: Op, v: int, q: int, p: Pk)
    requires op.Update? && !UpdateRefused(db, op)
    ensures var changed := ChangedColumns(s.cols, op.values, db.table[op.pk]);
      RowAt(Apply(s, db, op, v, q), p) ==
        if p == op.newPk && KeysTie(op.pk, p) then Row(Some(op.values), MarkColumns(s, MetaAt(db, p), changed, v, q))
        else if p == op.newPk then
          Row(Some(op.values),
              MarkColumns(s, MoveInMeta(s, MetaAt(db, p), MetaAt(db, op.pk), v, q + 1, op.moveSeq), changed, v, q + 2))
        else if p == op.pk && !KeysTie(p, op.newPk) then Row(None, DeleteMeta(s, MetaAt(db, p), v, q))
        else if p == op.pk || p in op.evicted then RowAt(db, p).(live := None)
        else RowAt(db, p)
  {
    hide KeysTie, MarkColumns, ChangedColumns, MoveInMeta, DeleteMeta;
  }

  /** There is no such row, or its new key is taken. */
  predicate UpdateRefused(db: Db, op: Op)
    requires op.Update?
  {
    op.pk !in db.table || (op.newPk != op.pk && op.newPk in db.table && !op.orReplace)
  }

  /**
   Row `p` is not in the user's table afterwards, and nothing marks that. A local statement evicts it, or
   moves it to another key whose values compare equal to those of its own. A merge takes it along with a
   deleted row; or it brings `p` to life, but the insert is ignored, and a column goes to another row.
   */
  predicate Vanishes(db: Db, op: Op, p: Pk) {
    match op
    case Insert(pk, _, orReplace, evicted) => (pk !in db.table || orReplace) && p in db.table && p != pk && p in evicted
    case Update(pk, newPk, _, _, evicted, _) =>
      && !UpdateRefused(db, op) && p in db.table && p != newPk
      && (if p == pk then KeysTie(pk, newPk) else p in evicted)
    case Merge(ch, met) =>
      var local := CausalLength(MetaAt(db, ch.pk));
      && ch.cl > local
      && (if p != ch.pk then ch.cl % 2 == 0 && p in db.table && p in met.gone
          else
            && ch.cl % 2 == 1 && p !in db.table
            && (ch.name == SENTINEL || Resurrects(local, ch) ==> met.ignored)
            && (ch.name != SENTINEL ==> Target(db.table, p, met) != p))
    case Delete(_) => false
  }

  ghost predicate LosesRow(db: Db, op: Op) {
    exists p :: Vanishes(db, op, p)
  }

  /** A merged column may go to a row of another key. */
  predicate Redirects(db: Db, op: Op) {
    op.Merge? && Target(db.table, op.ch.pk, op.met) != op.ch.pk
  }

  // ---------- what the row functions keep ----------

  /** A pass over some columns bumps exactly those and leaves the sentinel alone. */
  lemma {:induction false} MarkColumnsEffect(s: Schema, m: RowMeta, names: seq<Name>, v: int, q: int)
    requires forall i, j :: 0 <= i < j < |names| ==> names[i] != names[j]
    ensures var r := MarkColumns(s, m, names, v, q);
      && r.Keys == m.Keys + (set n | n in names)
      && (forall n <- r :: n !in names ==> r[n] == m[n])
      && (forall n <- names :: n in r && r[n].dbVersion == v && r[n].site == s.site
            && r[n].colVersion == if n in m then m[n].colVersion + 1 else 1)
    decreases |names|
  {
    if names != [] {
      var k := |names| - 1;
      MarkColumnsEffect(s, m, names[..k], v, q);
      assert names == names[..k] + [names[k]];
    }
  }

  /** The sequence numbers follow the columns. */
  lemma {:induction false} MarkColumnsSeq(s: Schema, m: RowMeta, names: seq<Name>, v: int, q: int, i: nat)
    requires i < |names| && forall i, j :: 0 <= i < j < |names| ==> names[i] != names[j]
    ensures var r := MarkColumns(s, m, names, v, q); names[i] in r && r[names[i]].seqNo == q + i
    decreases |names|
  {
    var k := |names| - 1;
    if i < k {
      MarkColumnsSeq(s, m, names[..k], v, q, i);
      assert names[..k][i] == names[i] != names[k];
    }
  }

  lemma {:induction false} ChangedColumnsEffect(names: seq<Name>, now: RowValues, was: RowValues)
    requires forall i, j :: 0 <= i < j < |names| ==> names[i] != names[j]
    ensures var r := ChangedColumns(names, now, was);
      && (forall n :: n in r <==> n in names && Differs(n, now, was))
      && (forall i, j :: 0 <= i < j < |r| ==> r[i] != r[j])
    decreases |names|
  {
    if names != [] {
      var k := |names| - 1;
      ChangedColumnsEffect(names[..k], now, was);
      assert names == names[..k] + [names[k]];
      assert names[k] !in names[..k];
    }
  }

  /** Marking columns of a live row, or the first columns of a new one, leaves it live. */
  lemma MarkKeeps(s: Schema, m: RowMeta, names: seq<Name>, v: int, q: int)
    requires SchemaOk(s) && MetaInv(s, m)
    requires forall n <- names :: n in s.cols
    requires forall i, j :: 0 <= i < j < |names| ==> names[i] != names[j]
    requires CausalLength(m) % 2 == 1 || (m == map[] && names != [])
    ensures MetaInv(s, MarkColumns(s, m, names, v, q))
    ensures CausalLength(MarkColumns(s, m, names, v, q)) == if m == map[] then 1 else CausalLength(m)
  {
    MarkColumnsEffect(s, m, names, v, q);
    var r := MarkColumns(s, m, names, v, q);
    if m == map[] {
      assert names[0] in r && SENTINEL !in r;
    } else {
      var n :| n in m;
      assert n in r;
    }
  }

  lemma InsertKeeps(s: Schema, row: Row, values: RowValues, v: int, q: int)
    requires SchemaOk(s) && RowInv(s, row) && values.Keys == ColSet(s)
    ensures RowInv(s, Row(Some(values), InsertMeta(s, row.meta, v, q)))
    ensures CausalLength(InsertMeta(s, row.meta, v, q)) >= CausalLength(row.meta)
  {
    if s.cols != [] {
      if row.meta != map[] {
        assert MetaInv(s, SentinelUpdate(s, row.meta, v, q));
        MarkKeeps(s, SentinelUpdate(s, row.meta, v, q), s.cols, v, q + 1);
      } else {
        MarkKeeps(s, row.meta, s.cols, v, q);
      }
    } else if SENTINEL !in row.meta {
      assert row.meta == map[];
    }
  }

  lemma DeleteKeeps(s: Schema, row: Row, v: int, q: int)
    requires SchemaOk(s) && RowInv(s, row) && row.live.Some?
    ensures RowInv(s, Row(None, DeleteMeta(s, row.meta, v, q)))
    ensures CausalLength(DeleteMeta(s, row.meta, v, q)) == CausalLength(row.meta) + 1
  {
    assert SENTINEL in DeleteMeta(s, row.meta, v, q);
  }

  lemma MoveInKeeps(s: Schema, source: Row, target: Row, v: int, q: int, moveSeq: Name -> int)
    requires SchemaOk(s) && RowInv(s, source) && RowInv(s, target)
    ensures var r := MoveInMeta(s, target.meta, source.meta, v, q, moveSeq);
      MetaInv(s, r) && CausalLength(r) % 2 == 1 && CausalLength(r) >= CausalLength(target.meta)
  {
    var moved := Moved(s, source.meta, v, moveSeq);
    assert moved.Keys <= ColSet(s) && forall n <- moved :: moved[n].colVersion == 1;
    hide Moved;
    SentinelInsertKeeps(s, target.meta, moved, v, q);
  }

  lemma SentinelInsertKeeps(s: Schema, m: RowMeta, moved: RowMeta, v: int, q: int)
    requires SENTINEL !in s.cols && MetaInv(s, m) && moved.Keys <= ColSet(s)
    requires forall n <- moved :: moved[n].colVersion == 1
    ensures var r := SentinelInsert(s, m + moved, v, q);
      MetaInv(s, r) && CausalLength(r) % 2 == 1 && CausalLength(r) >= CausalLength(m)
  {
    assert SENTINEL !in moved;
    var r := SentinelInsert(s, m + moved, v, q);
    assert SENTINEL in r && CausalLength(r) == r[SENTINEL].colVersion;
  }

  lemma ResurrectKeeps(s: Schema, row: Row, cl: int, v: int, ch: Change)
    requires SchemaOk(s) && RowInv(s, row) && cl % 2 == 1 && cl >= 1
    ensures RowInv(s, ResurrectRow(s, row, cl, v, ch))
    ensures CausalLength(ResurrectRow(s, row, cl, v, ch).meta) == cl
  {
  }

  lemma WriteKeeps(s: Schema, row: Row, v: int, ch: Change)
    requires SchemaOk(s) && RowInv(s, row) && ch.name in s.cols && ch.colVersion >= 0
    requires CausalLength(row.meta) % 2 == 1 || row.meta == map[]
    ensures RowInv(s, WriteColumn(s, row, v, ch))
    ensures CausalLength(WriteColumn(s, row, v, ch).meta) == if row.meta == map[] then 1 else CausalLength(row.meta)
  {
    assert ch.name in WriteColumn(s, row, v, ch).meta;
  }

  /** Merging a well-formed change keeps the row invariant and takes the greater causal length. */
  lemma MergeKeeps(s: Schema, row: Row, ch: Change, v: int)
    requires SchemaOk(s) && RowInv(s, row) && WellFormed(s, ch)
    ensures RowInv(s, MergeRow(s, row, ch, v))
    ensures CausalLength(MergeRow(s, row, ch, v).meta) ==
      if ch.cl > CausalLength(row.meta) then ch.cl else CausalLength(row.meta)
  {
    var local := CausalLength(row.meta);
    if ch.cl < local || ch.cl % 2 == 0 {
    } else if ch.name == SENTINEL {
      ResurrectKeeps(s, row, ch.colVersion, v, ch);
    } else {
      assert local == 0 ==> row.meta == map[];
      if ch.cl > local && (local != 0 || ch.cl > 1) {
        ResurrectKeeps(s, row, ch.cl, v, ch);
        WriteKeeps(s, ResurrectRow(s, row, ch.cl, v, ch), v, ch);
      } else {
        WriteKeeps(s, row, v, ch);
      }
    }
  }

  /**
   The entries a merge leaves meet their invariant, and the greater causal length, whatever rows its
   statements met.
   */
  lemma MergeMetaKeeps(s: Schema, m: RowMeta, shown: Option<RowValues>, ch: Change, v: int)
    requires SchemaOk(s) && MetaInv(s, m) && WellFormed(s, ch)
    ensures MetaInv(s, MergeMeta(m, shown, ch, v))
    ensures CausalLength(MergeMeta(m, shown, ch, v)) == if ch.cl > CausalLength(m) then ch.cl else CausalLength(m)
  {
    var local := CausalLength(m);
    assert local == 0 ==> m == map[];
    if ch.cl % 2 == 0 {
      DeadMetaKeeps(s, m, ch, v);
    } else {
      UpMetaKeeps(s, m, ch, v);
      var up := WinnerClock(ZeroClock(m, v), SENTINEL, ch.cl, v, ch);
      if ch.name != SENTINEL {
        ClockKeeps(s, up, ch, v);
        if local % 2 == 1 || m == map[] { ClockKeeps(s, m, ch, v); }
      }
    }
    hide ColumnWins, MetaInv, WinnerClock, ZeroClock, RowDrop, CausalLength;
  }

  lemma DeadMetaKeeps(s: Schema, m: RowMeta, ch: Change, v: int)
    requires SchemaOk(s) && MetaInv(s, m) && WellFormed(s, ch) && ch.cl % 2 == 0
    ensures var dead := RowDrop(WinnerClock(m, ch.name, ch.colVersion, v, ch));
      MetaInv(s, dead) && CausalLength(dead) == ch.cl
  {
    assert SENTINEL in RowDrop(WinnerClock(m, ch.name, ch.colVersion, v, ch));
  }

  lemma UpMetaKeeps(s: Schema, m: RowMeta, ch: Change, v: int)
    requires SchemaOk(s) && MetaInv(s, m) && WellFormed(s, ch) && ch.cl % 2 == 1
    ensures var up := WinnerClock(ZeroClock(m, v), SENTINEL, ch.cl, v, ch);
      MetaInv(s, up) && CausalLength(up) == ch.cl
  {
    assert SENTINEL in WinnerClock(ZeroClock(m, v), SENTINEL, ch.cl, v, ch);
  }

  lemma ClockKeeps(s: Schema, m: RowMeta, ch: Change, v: int)
    requires SchemaOk(s) && MetaInv(s, m) && WellFormed(s, ch) && ch.name != SENTINEL
    requires CausalLength(m) % 2 == 1 || m == map[]
    ensures var now := WinnerClock(m, ch.name, ch.colVersion, v, ch);
      MetaInv(s, now) && CausalLength(now) == if m == map[] then 1 else CausalLength(m)
  {
    assert ch.name in WinnerClock(m, ch.name, ch.colVersion, v, ch);
  }

  lemma MergedMeta(s: Schema, db: Db, ch: Change, met: Met, v: int, q: int, p: Pk)
    ensures MetaAt(Apply(s, db, Merge(ch, met), v, q), p) ==
      if p == ch.pk then MergeMeta(MetaAt(db, p), Shown(db.table, p, met), ch, v) else MetaAt(db, p)
  {
    hide MergeTable, MergeMeta;
  }

  /** When no row is lost and no column redirected, a merge moves the row its change names and no other. */
  lemma MergeRowAt(s: Schema, db: Db, ch: Change, met: Met, v: int, q: int, p: Pk)
    requires RowInv(s, RowAt(db, ch.pk)) && WellFormed(s, ch)
    requires !LosesRow(db, Merge(ch, met)) && !Redirects(db, Merge(ch, met))
    ensures RowAt(Apply(s, db, Merge(ch, met), v, q), p) ==
      if p == ch.pk then MergeRow(s, RowAt(db, p), ch, v) else RowAt(db, p)
  {
    var op := Merge(ch, met);
    assert !Vanishes(db, op, p) && !Vanishes(db, op, ch.pk);
    if p == ch.pk { MergeOwnRow(s, db, ch, met, v); }
  }

  lemma MergeOwnRow(s: Schema, db: Db, ch: Change, met: Met, v: int)
    requires RowInv(s, RowAt(db, ch.pk)) && WellFormed(s, ch)
    requires !Vanishes(db, Merge(ch, met), ch.pk) && !Redirects(db, Merge(ch, met))
    ensures RowAt(MergeDb(s, db, ch, met, v), ch.pk) == MergeRow(s, RowAt(db, ch.pk), ch, v)
  {
    hide Compare, RowDrop, ZeroClock, WinnerClock, MetaInv;
  }

  // ---------- every operation, and every run ----------

  /**
   An operation keeps the invariant of every row if and only if it loses no row. One that loses row `p`
   leaves it absent with an odd causal length.
   */
  lemma ApplyKeeps(s: Schema, db: Db, op: Op, v: int, q: int)
    requires SchemaOk(s) && Inv(s, db) && OpOk(s, op)
    ensures Inv(s, Apply(s, db, op, v, q)) <==> !LosesRow(db, op)
    ensures forall p :: Vanishes(db, op, p) ==>
      p !in Apply(s, db, op, v, q).table && CausalLength(MetaAt(Apply(s, db, op, v, q), p)) % 2 == 1
  {
    hide Apply, RowInv, Vanishes;
    var db' := Apply(s, db, op, v, q);
    forall p | Vanishes(db, op, p)
      ensures p !in db'.table && CausalLength(MetaAt(db', p)) % 2 == 1 && !RowInv(s, RowAt(db', p))
    {
      VanishedRow(s, db, op, v, q, p);
    }
    if !LosesRow(db, op) {
      forall p ensures RowInv(s, RowAt(db', p)) { RowKeeps(s, db, op, v, q, p); }
    }
  }

  lemma VanishedRow(s: Schema, db: Db, op: Op, v: int, q: int, p: Pk)
    requires SchemaOk(s) && Inv(s, db) && OpOk(s, op) && Vanishes(db, op, p)
    ensures var db' := Apply(s, db, op, v, q);
      p !in db'.table && CausalLength(MetaAt(db', p)) % 2 == 1 && !RowInv(s, RowAt(db', p))
  {
    hide KeysTie, ColumnWins;
    assert RowInv(s, RowAt(db, p)) && RowAt(db, p).meta == MetaAt(db, p);
    var db' := Apply(s, db, op, v, q);
    assert MetaAt(db', p) == RowAt(db', p).meta;
    if op.Merge? {
      assert RowInv(s, RowAt(db, op.ch.pk));
      MergedMeta(s, db, op.ch, op.met, v, q, p);
      MergeMetaKeeps(s, MetaAt(db, p), Shown(db.table, p, op.met), op.ch, v);
      hide MergeMeta;
      assert p !in db'.table;
    } else {
      assert RowAt(db', p) == RowAt(db, p).(live := None);
    }
  }

  lemma RowKeeps(s: Schema, db: Db, op: Op, v: int, q: int, p: Pk)
    requires SchemaOk(s) && Inv(s, db) && OpOk(s, op) && !LosesRow(db, op)
    ensures RowInv(s, RowAt(Apply(s, db, op, v, q), p))
  {
    hide KeysTie;
    assert RowInv(s, RowAt(db, p)) && !Vanishes(db, op, p);
    match op
    case Insert(pk, values, _, _) => InsertKeeps(s, RowAt(db, pk), values, v, q);
    case Delete(pk) => if pk in db.table { DeleteKeeps(s, RowAt(db, pk), v, q); }
    case Merge(_, _) => MergedRowKeeps(s, db, op, v, q, p);
    case Update(pk, newPk, _, _, _, _) =>
      if UpdateRefused(db, op) {
      } else if KeysTie(pk, newPk) {
        TiedMoveVanishes(db, op);
        SameKeyKeeps(s, db, op, v, q, p);
      } else {
        NewKeyKeeps(s, db, op, v, q, p);
      }
  }

  lemma MergedRowKeeps(s: Schema, db: Db, op: Op, v: int, q: int, p: Pk)
    requires SchemaOk(s) && Inv(s, db) && op.Merge? && WellFormed(s, op.ch) && !Vanishes(db, op, p)
    ensures RowInv(s, RowAt(Apply(s, db, op, v, q), p))
  {
    var ch, met := op.ch, op.met;
    assert RowInv(s, RowAt(db, p)) && RowInv(s, RowAt(db, ch.pk));
    assert RowInv(s, RowAt(db, Target(db.table, ch.pk, met)));
    MergedMeta(s, db, ch, met, v, q, p);
    var db' := Apply(s, db, op, v, q);
    assert RowAt(db', p) == Row(if p in db'.table then Some(db'.table[p]) else None, MetaAt(db', p));
    if p == ch.pk {
      MergeMetaKeeps(s, MetaAt(db, ch.pk), Shown(db.table, ch.pk, met), ch, v);
      OwnTableKeeps(s, db.table, MetaAt(db, p), ch, met);
    } else {
      OtherTableKeeps(s, db.table, MetaAt(db, ch.pk), ch, met, p);
    }
  }

  /** The merged key is in the table afterwards if the greater causal length is odd, unless it vanishes. */
  lemma OwnTableKeeps(s: Schema, table: map<Pk, RowValues>, m: RowMeta, ch: Change, met: Met)
    requires SchemaOk(s) && WellFormed(s, ch) && CausalLength(m) >= 0
    requires (ch.pk in table <==> CausalLength(m) % 2 == 1) && (ch.pk in table ==> table[ch.pk].Keys == ColSet(s))
    requires Target(table, ch.pk, met) in table ==> table[Target(table, ch.pk, met)].Keys == ColSet(s)
    requires ch.cl > CausalLength(m) && ch.cl % 2 == 1 && ch.pk !in table ==>
      !(&& (ch.name == SENTINEL || Resurrects(CausalLength(m), ch) ==> met.ignored)
        && (ch.name != SENTINEL ==> Target(table, ch.pk, met) != ch.pk))
    ensures var table' := MergeTable(s, table, m, ch, met);
      && (ch.pk in table' <==> (if ch.cl > CausalLength(m) then ch.cl else CausalLength(m)) % 2 == 1)
      && (ch.pk in table' ==> table'[ch.pk].Keys == ColSet(s))
  {
    hide ColumnWins;
  }

  lemma OtherTableKeeps(s: Schema, table: map<Pk, RowValues>, m: RowMeta, ch: Change, met: Met, p: Pk)
    requires SchemaOk(s) && WellFormed(s, ch) && p != ch.pk && (p in table ==> table[p].Keys == ColSet(s))
    requires ch.cl > CausalLength(m) && ch.cl % 2 == 0 && p in table ==> p !in met.gone
    ensures var table' := MergeTable(s, table, m, ch, met);
      (p in table' <==> p in table) && (p in table' ==> table'[p].Keys == ColSet(s))
  {
    hide ColumnWins;
  }

  lemma TiedMoveVanishes(db: Db, op: Op)
    requires op.Update? && !UpdateRefused(db, op)
    ensures KeysTie(op.pk, op.newPk) && op.newPk != op.pk ==> Vanishes(db, op, op.pk)
    ensures op.newPk == op.pk ==> KeysTie(op.pk, op.newPk)
  {
  }

  lemma SameKeyKeeps(s: Schema, db: Db, op: Op, v: int, q: int, p: Pk)
    requires SchemaOk(s) && Inv(s, db) && OpOk(s, op) && op.Update? && !UpdateRefused(db, op)
    requires op.newPk == op.pk && !Vanishes(db, op, p)
    ensures RowInv(s, RowAt(Apply(s, db, op, v, q), p))
  {
    hide MarkColumns, ChangedColumns, MetaInv;
    assert RowInv(s, RowAt(db, p)) && RowInv(s, RowAt(db, op.pk));
    ChangedColumnsEffect(s.cols, op.values, db.table[op.pk]);
    var changed := ChangedColumns(s.cols, op.values, db.table[op.pk]);
    MarkKeeps(s, MetaAt(db, op.pk), changed, v, q);
  }

  lemma NewKeyKeeps(s: Schema, db: Db, op: Op, v: int, q: int, p: Pk)
    requires SchemaOk(s) && Inv(s, db) && OpOk(s, op) && op.Update? && !UpdateRefused(db, op)
    requires !KeysTie(op.pk, op.newPk) && !Vanishes(db, op, p)
    ensures RowInv(s, RowAt(Apply(s, db, op, v, q), p))
  {
    hide MarkColumns, ChangedColumns, MetaInv, MoveInMeta, DeleteMeta;
    assert RowInv(s, RowAt(db, p)) && RowInv(s, RowAt(db, op.pk)) && RowInv(s, RowAt(db, op.newPk));
    ChangedColumnsEffect(s.cols, op.values, db.table[op.pk]);
    var changed := ChangedColumns(s.cols, op.values, db.table[op.pk]);
    KeyChangeKeeps(s, RowAt(db, op.pk), RowAt(db, op.newPk), op.values, changed, v, q + 1, op.moveSeq);
    DeleteKeeps(s, RowAt(db, op.pk), v, q);
  }

  lemma KeyChangeKeeps(s: Schema, source: Row, target: Row, values: RowValues, changed: seq<Name>, v: int, q: int,
                       moveSeq: Name -> int)
    requires SchemaOk(s) && RowInv(s, source) && RowInv(s, target) && values.Keys == ColSet(s)
    requires forall n <- changed :: n in s.cols
    requires forall i, j :: 0 <= i < j < |changed| ==> changed[i] != changed[j]
    ensures var r := MarkColumns(s, MoveInMeta(s, target.meta, source.meta, v, q, moveSeq), changed, v, q + 1);
      RowInv(s, Row(Some(values), r)) && CausalLength(target.meta) <= CausalLength(r)
  {
    MoveInKeeps(s, source, target, v, q, moveSeq);
    MarkKeeps(s, MoveInMeta(s, target.meta, source.meta, v, q, moveSeq), changed, v, q + 1);
    assert SENTINEL in MoveInMeta(s, target.meta, source.meta, v, q, moveSeq);
  }

  // ---------- causal lengths, without the invariant ----------

  lemma {:induction false} MarkClGrows(s: Schema, m: RowMeta, names: seq<Name>, v: int, q: int)
    requires forall n <- names :: n != SENTINEL
    ensures CausalLength(MarkColumns(s, m, names, v, q)) >= CausalLength(m)
    decreases |names|
  {
    if names != [] {
      var init := names[..|names| - 1];
      forall n | n in init ensures n != SENTINEL { assert n in names; }
      MarkClGrows(s, m, init, v, q);
    }
  }

  lemma InsertClGrows(s: Schema, m: RowMeta, v: int, q: int)
    requires SENTINEL !in s.cols
    ensures CausalLength(InsertMeta(s, m, v, q)) >= CausalLength(m)
  {
    MarkClGrows(s, SentinelUpdate(s, m, v, q), s.cols, v, q + 1);
    MarkClGrows(s, m, s.cols, v, q);
    hide MarkColumns;
    assert m != map[] ==> SentinelUpdate(s, m, v, q) != map[];
    assert SENTINEL in SentinelInsert(s, m, v, q);
  }

  lemma DeleteClGrows(s: Schema, m: RowMeta, v: int, q: int)
    ensures CausalLength(DeleteMeta(s, m, v, q)) > CausalLength(m)
  {
    assert SENTINEL in DeleteMeta(s, m, v, q);
  }

  lemma MoveInClGrows(s: Schema, target: RowMeta, source: RowMeta, v: int, q: int, moveSeq: Name -> int)
    ensures CausalLength(MoveInMeta(s, target, source, v, q, moveSeq)) >= CausalLength(target)
  {
    assert SENTINEL in MoveInMeta(s, target, source, v, q, moveSeq);
    assert SENTINEL !in Moved(s, source, v, moveSeq);
  }

  lemma MergeClGrows(m: RowMeta, shown: Option<RowValues>, ch: Change, v: int, s: Schema)
    requires WellFormed(s, ch)
    ensures CausalLength(MergeMeta(m, shown, ch, v)) >= CausalLength(m)
  {
    hide ColumnWins;
    var up := WinnerClock(ZeroClock(m, v), SENTINEL, ch.cl, v, ch);
    assert SENTINEL in up && SENTINEL in RowDrop(WinnerClock(m, SENTINEL, ch.colVersion, v, ch));
    assert ch.name in WinnerClock(m, ch.name, ch.colVersion, v, ch)
      && ch.name in WinnerClock(up, ch.name, ch.colVersion, v, ch);
  }

  /** No operation lowers the causal length of any row, in any state. */
  lemma ApplyGrowsCl(s: Schema, db: Db, op: Op, v: int, q: int, p: Pk)
    requires SchemaOk(s) && OpOk(s, op)
    ensures CausalLength(MetaAt(Apply(s, db, op, v, q), p)) >= CausalLength(MetaAt(db, p))
  {
    hide KeysTie, CausalLength, MergeDb, MarkColumns, InsertMeta, DeleteMeta, MoveInMeta, ChangedColumns;
    var db' := Apply(s, db, op, v, q);
    var m, m' := RowAt(db, p).meta, RowAt(db', p).meta;
    assert m == MetaAt(db, p) && m' == MetaAt(db', p);
    match op
    case Insert(pk, _, _, _) => InsertClGrows(s, m, v, q);
    case Delete(pk) => DeleteClGrows(s, m, v, q);
    case Merge(ch, met) =>
      MergedMeta(s, db, ch, met, v, q, p);
      MergeClGrows(m, Shown(db.table, p, met), ch, v, s);
    case Update(_, _, _, _, _, _) => if !UpdateRefused(db, op) { UpdateGrowsCl(s, db, op, v, q, p); }
  }

  lemma UpdateGrowsCl(s: Schema, db: Db, op: Op, v: int, q: int, p: Pk)
    requires SENTINEL !in s.cols && op.Update? && !UpdateRefused(db, op)
    ensures CausalLength(RowAt(Apply(s, db, op, v, q), p).meta) >= CausalLength(RowAt(db, p).meta)
  {
    hide KeysTie, CausalLength, MarkColumns, DeleteMeta, MoveInMeta, ChangedColumns;
    var m := MetaAt(db, p);
    var changed := ChangedColumns(s.cols, op.values, db.table[op.pk]);
    ChangedColumnsNamed(s.cols, op.values, db.table[op.pk]);
    DeleteClGrows(s, m, v, q);
    MoveInClGrows(s, m, MetaAt(db, op.pk), v, q + 1, op.moveSeq);
    MarkClGrows(s, m, changed, v, q);
    MarkClGrows(s, MoveInMeta(s, m, MetaAt(db, op.pk), v, q + 1, op.moveSeq), changed, v, q + 2);
  }

  lemma {:induction false} ChangedColumnsNamed(names: seq<Name>, now: RowValues, was: RowValues)
    ensures forall n <- ChangedColumns(names, now, was) :: n in names
    decreases |names|
  {
    if names != [] {
      ChangedColumnsNamed(names[..|names| - 1], now, was);
      assert forall n <- names[..|names| - 1] :: n in names;
    }
  }

  const EMPTY_DB: Db := Db(map[], map[])

  datatype Event = Event(op: Op, dbVersion: int, seqNo: int)

  /** A history: the states a replica goes through while it runs local statements and merges. */
  ghost predicate History(s: Schema, states: seq<Db>, events: seq<Event>) {
    && |states| == |events| + 1
    && states[0] == EMPTY_DB
    && forall i :: 0 <= i < |events| ==>
         && OpOk(s, events[i].op)
         && states[i + 1] == Apply(s, states[i], events[i].op, events[i].dbVersion, events[i].seqNo)
  }

  /** Reachable from the empty table by any mix of local statements and merges that loses no row. */
  ghost predicate Reachable(s: Schema, db: Db) {
    exists states: seq<Db>, events: seq<Event> ::
      History(s, states, events) && KeepsRows(states, events) && states[|states| - 1] == db
  }

  /** No step of the history loses a row. */
  ghost predicate KeepsRows(states: seq<Db>, events: seq<Event>) {
    |states| == |events| + 1 && forall i :: 0 <= i < |events| ==> !LosesRow(states[i], events[i].op)
  }

  lemma EmptyInv(s: Schema)
    requires SchemaOk(s)
    ensures Inv(s, EMPTY_DB)
  {
    forall p ensures RowInv(s, RowAt(EMPTY_DB, p)) { assert RowAt(EMPTY_DB, p) == Row(None, map[]); }
  }

  /** Over every history: parity holds up to the first step that loses a row. */
  lemma {:induction false} HistoryKeeps(s: Schema, states: seq<Db>, events: seq<Event>, i: nat)
    requires SchemaOk(s) && History(s, states, events) && i < |states|
    requires forall k :: 0 <= k < i ==> !LosesRow(states[k], events[k].op)
    ensures Inv(s, states[i])
  {
    hide Apply, RowInv, LosesRow;
    if i == 0 {
      EmptyInv(s);
    } else {
      HistoryKeeps(s, states, events, i - 1);
      ApplyKeeps(s, states[i - 1], events[i - 1].op, events[i - 1].dbVersion, events[i - 1].seqNo);
    }
  }

  /** Over every history: parity holds throughout if and only if no step loses a row. */
  lemma HistoryKeepsExactly(s: Schema, states: seq<Db>, events: seq<Event>)
    requires SchemaOk(s) && History(s, states, events)
    ensures (forall i :: 0 <= i < |states| ==> Inv(s, states[i])) <==> KeepsRows(states, events)
  {
    hide Apply, Inv, LosesRow;
    if KeepsRows(states, events) {
      forall i | 0 <= i < |states| ensures Inv(s, states[i]) { HistoryKeeps(s, states, events, i); }
    } else if forall i :: 0 <= i < |states| ==> Inv(s, states[i]) {
      var k :| 0 <= k < |events| && LosesRow(states[k], events[k].op);
      ApplyKeeps(s, states[k], events[k].op, events[k].dbVersion, events[k].seqNo);
      assert Inv(s, states[k + 1]);
    }
  }

  /** Over every history, whatever it loses: no causal length ever falls. */
  lemma {:induction false} CausalLengthsGrow(s: Schema, states: seq<Db>, events: seq<Event>, i: nat, j: nat, p: Pk)
    requires SchemaOk(s) && History(s, states, events) && i <= j < |states|
    ensures CausalLength(MetaAt(states[i], p)) <= CausalLength(MetaAt(states[j], p))
    decreases j
  {
    hide Apply, CausalLength;
    if i < j {
      CausalLengthsGrow(s, states, events, i, j - 1, p);
      ApplyGrowsCl(s, states[j - 1], events[j - 1].op, events[j - 1].dbVersion, events[j - 1].seqNo, p);
    }
  }

  /**
   A row of a reachable table is present exactly when its causal length is odd; a deleted row keeps only its
   sentinel.
   */
  lemma ParityOfReachable(s: Schema, db: Db, p: Pk)
    requires SchemaOk(s) && Reachable(s, db)
    ensures p in db.table <==> CausalLength(MetaAt(db, p)) % 2 == 1
    ensures CausalLength(MetaAt(db, p)) >= 0
    ensures CausalLength(MetaAt(db, p)) % 2 == 0 ==> MetaAt(db, p).Keys <= {SENTINEL}
    ensures Inv(s, db)
  {
    var states, events :| History(s, states, events) && KeepsRows(states, events) && states[|states| - 1] == db;
    HistoryKeeps(s, states, events, |states| - 1);
    assert RowInv(s, RowAt(db, p));
  }

  // ---------- ways to lose a row ----------

  const COL: Name := [99]
  const ONE_COLUMN: Schema := Schema([COL], map[COL := Null], [])

  /** The encodings of the texts x'610078' and x'610079', which differ behind a NUL. */
  const OLD_KEY: Pk := [1, 11, 3, 97, 0, 120]
  const NEW_KEY: Pk := [1, 11, 3, 97, 0, 121]

  lemma TiedKeys()
    ensures PkCodec.EncodePrikey([Text([97, 0, 120])]) == OLD_KEY
    ensures PkCodec.EncodePrikey([Text([97, 0, 121])]) == NEW_KEY
    ensures OLD_KEY != NEW_KEY && KeysTie(OLD_KEY, NEW_KEY)
  {
    var a, b := [Text([97, 0, 120])], [Text([97, 0, 121])];
    OneText([97, 0, 120]);
    OneText([97, 0, 121]);
    assert StrCmp([97, 0, 120], [97, 0, 121]) == 0 by {
      assert [97, 0, 120][1..] == [0, 120] && [97, 0, 121][1..] == [0, 121];
    }
    assert OLD_KEY[5] != NEW_KEY[5];
    KeysTieExactly(a, b);
  }

  lemma OneText(t: Bytes)
    requires |t| == 3
    ensures PkCodec.EncodePrikey([Text(t)]) == [1, 11, 3] + t
  {
    assert [Text(t)][1..] == [];
    assert PkCodec.BigEndian(3, 1) == [3];
    assert PkCodec.EncodeValue(Text(t)) == [11, 3] + t;
    hide PkCodec.EncodeValue;
    assert PkCodec.Encode([Text(t)]) == PkCodec.EncodeValue(Text(t));
  }

  /** One row, under the old key. */
  const ONE_ROW: Db := Db(map[OLD_KEY := map[COL := Integer(7)]], map[OLD_KEY := map[COL := Entry(1, 1, [], 0)]])

  lemma OneRowOk()
    ensures SchemaOk(ONE_COLUMN) && Inv(ONE_COLUMN, ONE_ROW)
  {
    assert |COL| == 1 && COL != SENTINEL;
    assert COL in ONE_ROW.meta[OLD_KEY];
    forall p ensures RowInv(ONE_COLUMN, RowAt(ONE_ROW, p)) {
      if p != OLD_KEY { assert RowAt(ONE_ROW, p) == Row(None, map[]); }
    }
  }

  lemma OneRowInserted()
    ensures Apply(ONE_COLUMN, EMPTY_DB, Insert(OLD_KEY, map[COL := Integer(7)], false, {}), 1, 0) == ONE_ROW
  {
    var m: RowMeta := map[];
    assert [COL][..0] == [] && MarkColumns(ONE_COLUMN, m, [], 1, 0) == m;
    assert MarkColumns(ONE_COLUMN, m, [COL], 1, 0) == RowInsertUpdate(ONE_COLUMN, m, COL, 1, 1, 0);
    assert InsertMeta(ONE_COLUMN, m, 1, 0) == MarkColumns(ONE_COLUMN, m, [COL], 1, 0);
    assert m[COL := Entry(1, 1, [], 0)] == map[COL := Entry(1, 1, [], 0)];
    hide InsertMeta, MarkColumns;
    assert Evict(EMPTY_DB, {}) == EMPTY_DB;
  }

  lemma OneRowReachable()
    ensures Reachable(ONE_COLUMN, ONE_ROW)
  {
    OneRowOk();
    OneRowInserted();
    var op := Insert(OLD_KEY, map[COL := Integer(7)], false, {});
    var states, events := [EMPTY_DB, ONE_ROW], [Event(op, 1, 0)];
    assert !LosesRow(EMPTY_DB, op);
    hide Apply, LosesRow;
    assert History(ONE_COLUMN, states, events) && KeepsRows(states, events) && states[|states| - 1] == ONE_ROW;
  }

  /**
   A key changed behind a NUL: the row moves to the new key and no entry follows it. The old key keeps the
   causal length of a live row, and the new one has none.
   */
  lemma TiedKeyMoves()
    ensures var op := Update(OLD_KEY, NEW_KEY, map[COL := Integer(7)], false, {}, _ => 0);
      var db' := Apply(ONE_COLUMN, ONE_ROW, op, 2, 0);
      && Reachable(ONE_COLUMN, ONE_ROW) && OpOk(ONE_COLUMN, op) && LosesRow(ONE_ROW, op)
      && OLD_KEY !in db'.table && CausalLength(MetaAt(db', OLD_KEY)) == 1
      && NEW_KEY in db'.table && CausalLength(MetaAt(db', NEW_KEY)) == 0
      && !Inv(ONE_COLUMN, db')
  {
    TiedKeys();
    OneRowOk();
    OneRowReachable();
    hide KeysTie, Reachable;
    var op := Update(OLD_KEY, NEW_KEY, map[COL := Integer(7)], false, {}, _ => 0);
    assert Vanishes(ONE_ROW, op, OLD_KEY);
    ApplyKeeps(ONE_COLUMN, ONE_ROW, op, 2, 0);
    assert [COL][..0] == [] && Compare(Integer(7), Integer(7)) == 0;
    assert ChangedColumns([COL], map[COL := Integer(7)], map[COL := Integer(7)]) == [];
  }

  /** A row evicted by an insert under another key keeps the causal length of a live row. */
  lemma EvictedRowStays()
    ensures var op := Insert(NEW_KEY, map[COL := Integer(7)], true, {OLD_KEY});
      var db' := Apply(ONE_COLUMN, ONE_ROW, op, 2, 0);
      && OpOk(ONE_COLUMN, op) && LosesRow(ONE_ROW, op)
      && OLD_KEY !in db'.table && CausalLength(MetaAt(db', OLD_KEY)) == 1 && !Inv(ONE_COLUMN, db')
  {
    TiedKeys();
    OneRowOk();
    var op := Insert(NEW_KEY, map[COL := Integer(7)], true, {OLD_KEY});
    assert Vanishes(ONE_ROW, op, OLD_KEY);
    ApplyKeeps(ONE_COLUMN, ONE_ROW, op, 2, 0);
    hide Inv, Apply;
    assert OLD_KEY !in Apply(ONE_COLUMN, ONE_ROW, op, 2, 0).table;
    EvictedMeta(ONE_COLUMN, ONE_ROW, op, 2, 0, OLD_KEY);
  }

  lemma EvictedMeta(s: Schema, db: Db, op: Op, v: int, q: int, p: Pk)
    requires op.Insert? && p != op.pk
    ensures MetaAt(Apply(s, db, op, v, q), p) == MetaAt(db, p)
  {
    assert RowAt(Apply(s, db, op, v, q), p).meta == RowAt(db, p).meta;
  }

  /** The same value under another key, the row of another key, and its death. */
  const SAME_VALUE: Change := Change(NEW_KEY, COL, Integer(7), 1, 1, [9], 1, 0)
  const OTHER_ROW: Change := Change(NEW_KEY, SENTINEL, Null, 1, 1, [9], 1, 0)
  const OTHER_DEAD: Change := Change(NEW_KEY, SENTINEL, Null, 2, 2, [9], 2, 0)

  /**
   With a UNIQUE column, the upsert of a row that another replica gave the same value updates the row that is
   here. The new key gets its entry and no row.
   */
  lemma RedirectedUpsert()
    ensures var op := Merge(SAME_VALUE, Met(false, Some(OLD_KEY), {}, None));
      var db' := Apply(ONE_COLUMN, ONE_ROW, op, 2, 0);
      && Reachable(ONE_COLUMN, ONE_ROW) && OpOk(ONE_COLUMN, op) && LosesRow(ONE_ROW, op)
      && NEW_KEY !in db'.table && CausalLength(MetaAt(db', NEW_KEY)) == 1 && !Inv(ONE_COLUMN, db')
      && db'.table == ONE_ROW.table
  {
    OtherKey();
    var op := Merge(SAME_VALUE, Met(false, Some(OLD_KEY), {}, None));
    VanishesAlone(op, NEW_KEY);
    assert ONE_ROW.table[OLD_KEY][COL := Integer(7)] == ONE_ROW.table[OLD_KEY];
  }

  /** A bare row whose insert is ignored still gets its sentinel. */
  lemma IgnoredInsert()
    ensures var op := Merge(OTHER_ROW, Met(true, None, {}, None));
      var db' := Apply(ONE_COLUMN, ONE_ROW, op, 2, 0);
      && OpOk(ONE_COLUMN, op) && LosesRow(ONE_ROW, op)
      && NEW_KEY !in db'.table && CausalLength(MetaAt(db', NEW_KEY)) == 1 && !Inv(ONE_COLUMN, db')
  {
    OtherKey();
    VanishesAlone(Merge(OTHER_ROW, Met(true, None, {}, None)), NEW_KEY);
  }

  /** A merged delete that takes the row of a key SQL holds equal leaves that key the causal length of a live row. */
  lemma DeletedAlong()
    ensures var op := Merge(OTHER_DEAD, Met(false, None, {OLD_KEY}, None));
      var db' := Apply(ONE_COLUMN, ONE_ROW, op, 2, 0);
      && OpOk(ONE_COLUMN, op) && LosesRow(ONE_ROW, op)
      && OLD_KEY !in db'.table && CausalLength(MetaAt(db', OLD_KEY)) == 1 && !Inv(ONE_COLUMN, db')
  {
    OtherKey();
    VanishesAlone(Merge(OTHER_DEAD, Met(false, None, {OLD_KEY}, None)), OLD_KEY);
  }

  lemma OtherKey()
    ensures OLD_KEY != NEW_KEY && MetaAt(ONE_ROW, NEW_KEY) == map[] && CausalLength(MetaAt(ONE_ROW, OLD_KEY)) == 1
    ensures SchemaOk(ONE_COLUMN) && Inv(ONE_COLUMN, ONE_ROW) && Reachable(ONE_COLUMN, ONE_ROW) && COL != SENTINEL
  {
    assert OLD_KEY[5] != NEW_KEY[5] && |COL| == 1;
    assert COL in ONE_ROW.meta[OLD_KEY];
    OneRowOk();
    OneRowReachable();
  }

  lemma VanishesAlone(op: Op, p: Pk)
    requires op.Merge? && OpOk(ONE_COLUMN, op) && Vanishes(ONE_ROW, op, p)
    requires SchemaOk(ONE_COLUMN) && Inv(ONE_COLUMN, ONE_ROW)
    requires p == op.ch.pk ==> op.ch.cl == 1 && MetaAt(ONE_ROW, p) == map[]
    requires p != op.ch.pk ==> CausalLength(MetaAt(ONE_ROW, p)) == 1
    ensures var db' := Apply(ONE_COLUMN, ONE_ROW, op, 2, 0);
      LosesRow(ONE_ROW, op) && p !in db'.table && CausalLength(MetaAt(db', p)) == 1 && !Inv(ONE_COLUMN, db')
  {
    ApplyKeeps(ONE_COLUMN, ONE_ROW, op, 2, 0);
    MergedMeta(ONE_COLUMN, ONE_ROW, op.ch, op.met, 2, 0, p);
    if p == op.ch.pk { MergeMetaKeeps(ONE_COLUMN, map[], Shown(ONE_ROW.table, p, op.met), op.ch, 2); }
  }

  // ---------- exported changes ----------

  /** The text a row-level-security filter leaves in place of a value; such rows are not exported. */
  const RLS_RESTRICTED: Value := Text([95, 95, 91, 82, 76, 83, 93, 95, 95])

  /** The cl column of cloudsync_changes: the sentinel's version, 1 without one. */
  function ExportedCl(m: RowMeta): int {
    if SENTINEL in m then m[SENTINEL].colVersion else 1
  }

  /** cloudsync_col_value: NULL for a sentinel, the restricted marker when the row is not there. */
  function ExportedValue(row: Row, name: Name): Value {
    if name == SENTINEL then Null
    else if row.live.Some? && name in row.live.value then row.live.value[name]
    else RLS_RESTRICTED
  }

  function ChangeOf(pk: Pk, row: Row, name: Name): Change
    requires name in row.meta
  {
    var e := row.meta[name];
    Change(pk, name, ExportedValue(row, name), e.colVersion, e.dbVersion, e.site, ExportedCl(row.meta), e.seqNo)
  }

  /** The exported change set: every meta entry joined with its sentinel and its value. */
  ghost predicate Exports(db: Db, ch: Change) {
    var row := RowAt(db, ch.pk);
    && ch.name in row.meta
    && ch == ChangeOf(ch.pk, row, ch.name)
    && ch.value != RLS_RESTRICTED
  }

  /** Every change exported from a table that meets the invariant is well-formed. */
  lemma ExportsWellFormed(s: Schema, db: Db, ch: Change)
    requires SchemaOk(s) && Inv(s, db) && Exports(db, ch)
    ensures WellFormed(s, ch)
    ensures ch.cl == CausalLength(MetaAt(db, ch.pk))
  {
    assert RowInv(s, RowAt(db, ch.pk));
  }

  // ---------- merging twice ----------

  /**
   Merging the same change again changes nothing, whatever version the clock would hand out, and whatever rows
   the statements would meet: none is executed.
   */
  lemma MergeIdempotent(s: Schema, db: Db, ch: Change, met: Met, v: int, q: int, met': Met, v': int, q': int)
    requires SchemaOk(s) && Inv(s, db) && WellFormed(s, ch)
    requires !LosesRow(db, Merge(ch, met)) && !Redirects(db, Merge(ch, met))
    ensures Inv(s, Apply(s, db, Merge(ch, met), v, q))
    ensures var once := Apply(s, db, Merge(ch, met), v, q);
      Same(Apply(s, once, Merge(ch, met'), v', q'), once)
  {
    ApplyKeeps(s, db, Merge(ch, met), v, q);
    var once := Apply(s, db, Merge(ch, met), v, q);
    assert RowInv(s, RowAt(db, ch.pk)) && RowInv(s, RowAt(once, ch.pk));
    MergeRowAt(s, db, ch, met, v, q, ch.pk);
    MergeKeeps(s, RowAt(db, ch.pk), ch, v);
    MergedColumnStays(s, RowAt(db, ch.pk), ch, v);
    hide MergeRow, Apply, RowInv;
    KnownIsNeutral(s, once, ch, met', v', q');
  }

  /** The row already tells what the change does. */
  predicate Known(row: Row, ch: Change) {
    || ch.cl < CausalLength(row.meta)
    || (ch.cl == CausalLength(row.meta)
        && (ch.name == SENTINEL || (row.live.Some? && ch.name in row.live.value && !ColumnWins(row, ch))))
  }

  lemma MergedColumnStays(s: Schema, row: Row, ch: Change, v: int)
    requires SchemaOk(s) && RowInv(s, row) && WellFormed(s, ch)
    ensures Known(MergeRow(s, row, ch, v), ch)
  {
    MergeKeeps(s, row, ch, v);
    CompareLaws(ch.value, ch.value);
  }

  lemma KnownIsNeutral(s: Schema, db: Db, ch: Change, met: Met, v: int, q: int)
    requires WellFormed(s, ch) && Known(RowAt(db, ch.pk), ch)
    ensures Same(Apply(s, db, Merge(ch, met), v, q), db)
  {
    hide ColumnWins;
    var db' := Apply(s, db, Merge(ch, met), v, q);
    assert db'.table == db.table;
    forall p ensures RowAt(db', p) == RowAt(db, p) {}
  }

  /** A replica that merges its own exported change back is left as it was. */
  lemma OwnExportIsNeutral(s: Schema, db: Db, ch: Change, met: Met, v: int, q: int)
    requires SchemaOk(s) && Inv(s, db) && Exports(db, ch)
    ensures WellFormed(s, ch)
    ensures Same(Apply(s, db, Merge(ch, met), v, q), db)
  {
    ExportsWellFormed(s, db, ch);
    CompareLaws(ch.value, ch.value);
    assert RowInv(s, RowAt(db, ch.pk));
    KnownIsNeutral(s, db, ch, met, v, q);
  }
}
