/**
 Exactly when a column's outcome is a function of the delivered change set alone: independent of the
 order of delivery and of whatever an earlier life left in the row before.
 */
module Determinism {
  import opened Values
  import opened Wrappers
  import opened Replica
  import opened Convergence

  /** The greatest value of all under `dbutils_value_compare`. */
  const TOP: Value := Integer(0x7FFF_FFFF_FFFF_FFFF)

  lemma TopIsGreatest(v: Value)
    ensures Compare(TOP, v) >= 0
    ensures Compare(v, TOP) >= 0 ==> v == TOP
  {
  }

  lemma {:induction false} DeliverAppend(s: Schema, db: Db, a: seq<Change>, va: seq<Turn>, b: seq<Change>,
                                         vb: seq<Turn>)
    requires |va| == |a| && |vb| == |b|
    ensures Deliver(s, db, a + b, va + vb) == Deliver(s, Deliver(s, db, a, va), b, vb)
    decreases |b|
  {
    hide Apply;
    if b == [] {
      assert a + b == a && va + vb == va;
    } else {
      var k := |b| - 1;
      DeliverAppend(s, db, a, va, b[..k], vb[..k]);
      assert (a + b)[..|a + b| - 1] == a + b[..k];
      assert (va + vb)[..|a + b| - 1] == va + vb[..k];
    }
  }

  /** The winning life of the changes to a row. */
  function Winning(chs: seq<Change>, p: Pk): int {
    MaxCl(chs, p, 0)
  }

  /** A state in which the winning life of `chs` has not begun yet for row `p`. */
  ghost predicate Before(s: Schema, db: Db, chs: seq<Change>, p: Pk) {
    Inv(s, db) && CausalLength(MetaAt(db, p)) < Winning(chs, p)
  }

  ghost predicate Run(s: Schema, db: Db, d: seq<Change>, v: seq<Turn>, chs: seq<Change>, p: Pk) {
    |v| == |d| && SameChanges(d, chs) && Before(s, db, chs, p) && Undisturbed(s, db, d, v)
  }

  function Outcome(s: Schema, db: Db, d: seq<Change>, v: seq<Turn>, p: Pk, c: Name): Option<Clocked>
    requires |v| == |d|
  {
    ColAt(RowAt(Deliver(s, db, d, v), p), c)
  }

  /** Every start before the winning life and every order, undisturbed, end with the same column. */
  ghost predicate Fixed(s: Schema, chs: seq<Change>, p: Pk, c: Name) {
    forall db1, d1, v1, db2, d2, v2 {:trigger Run(s, db1, d1, v1, chs, p), Run(s, db2, d2, v2, chs, p)} ::
      Run(s, db1, d1, v1, chs, p) && Run(s, db2, d2, v2, chs, p)
      ==> Agree(Outcome(s, db1, d1, v1, p, c), Outcome(s, db2, d2, v2, p, c))
  }

  /** Every change of life `m` to the row is to this column. */
  ghost predicate OnlyColumn(chs: seq<Change>, p: Pk, c: Name, m: int) {
    forall ch <- chs :: ch.pk == p && ch.cl == m ==> ch.name == c
  }

  ghost predicate TopChange(chs: seq<Change>, p: Pk, c: Name, m: int) {
    exists ch <- chs :: Contends(ch, p, c, m) && ch.value == TOP
  }

  /** The condition, read off the change set. */
  ghost predicate FixedWhen(chs: seq<Change>, p: Pk, c: Name) {
    var m := Winning(chs, p);
    m % 2 == 0 || m == 1 || OwnChange(chs, p, c, m) || OnlyColumn(chs, p, c, m) || TopChange(chs, p, c, m)
  }

  lemma MaxClBase(chs: seq<Change>, p: Pk, base: int)
    requires 0 <= base < Winning(chs, p)
    ensures MaxCl(chs, p, base) == Winning(chs, p)
  {
    MaxClIsMax(chs, p, base);
    MaxClIsMax(chs, p, 0);
  }

  /** When nothing else is written in the winning life, or nothing was there before, no remnant survives. */
  lemma {:induction false} NoRemnant(s: Schema, db: Db, chs: seq<Change>, vs: seq<Turn>, p: Pk, c: Name)
    requires SchemaOk(s) && Inv(s, db) && AllWellFormed(s, chs)
    requires |vs| == |chs| && c in s.cols && Undisturbed(s, db, chs, vs)
    requires CausalLength(MetaAt(db, p)) < MaxCl(chs, p, CausalLength(MetaAt(db, p)))
    requires var m := MaxCl(chs, p, CausalLength(MetaAt(db, p)));
      m % 2 == 1 && (m == 1 || OnlyColumn(chs, p, c, m))
    ensures var m := MaxCl(chs, p, CausalLength(MetaAt(db, p)));
      var now := ColAt(RowAt(Deliver(s, db, chs, vs), p), c);
      now.Some? ==> exists ch <- chs :: Contends(ch, p, c, m) && OfChange(ch) == now.value
    decreases |chs|
  {
    hide MergeRow, Apply, ColAt, WellFormed, RowInv, Deliver, Undisturbed;
    var cl0 := CausalLength(MetaAt(db, p));
    var k := |chs| - 1;
    var init, ch := chs[..k], chs[k];
    var mid := RowAt(Deliver(s, db, init, vs[..k]), p);
    DeliverStep(s, db, chs, vs, p);
    MaxClIsMax(init, p, cl0);
    if ch.pk == p { MergeColumn(s, mid, ch, vs[k].version, c); }
    if MaxCl(init, p, cl0) == MaxCl(chs, p, cl0) {
      NoRemnant(s, db, init, vs[..k], p, c);
    } else {
      assert ch in chs && (ch.name == c ==> Contends(ch, p, c, ch.cl));
      if ch.cl == 1 { EmptyRow(s, mid, c); }
    }
  }

  lemma EmptyRow(s: Schema, row: Row, c: Name)
    requires RowInv(s, row) && CausalLength(row.meta) <= 0
    ensures ColAt(row, c).None?
  {
  }

  lemma FixedIsSufficient(
    s: Schema, chs: seq<Change>, p: Pk, c: Name,
    db1: Db, d1: seq<Change>, v1: seq<Turn>, db2: Db, d2: seq<Change>, v2: seq<Turn>)
    requires SchemaOk(s) && AllWellFormed(s, chs) && c in s.cols && FixedWhen(chs, p, c)
    requires Run(s, db1, d1, v1, chs, p) && Run(s, db2, d2, v2, chs, p)
    ensures Agree(Outcome(s, db1, d1, v1, p, c), Outcome(s, db2, d2, v2, p, c))
  {
    hide MergeRow, Apply, WellFormed, Deliver, MaxCl, ColAt, Undisturbed;
    var m := Winning(chs, p);
    RunFacts(s, chs, p, c, db1, d1, v1);
    RunFacts(s, chs, p, c, db2, d2, v2);
    var x, y := Outcome(s, db1, d1, v1, p, c), Outcome(s, db2, d2, v2, p, c);
    if x.Some? && y.Some? { LeqLaws(x.value, y.value, x.value); }
  }

  /** What one run leaves, under each way the condition can hold. */
  lemma RunFacts(s: Schema, chs: seq<Change>, p: Pk, c: Name, db: Db, d: seq<Change>, v: seq<Turn>)
    requires SchemaOk(s) && AllWellFormed(s, chs) && c in s.cols && FixedWhen(chs, p, c)
    requires Run(s, db, d, v, chs, p)
    ensures var now := Outcome(s, db, d, v, p, c);
      var m := Winning(chs, p);
      && (m % 2 == 0 ==> now.None?)
      && (m % 2 == 1 ==>
            && (forall ch <- chs :: Contends(ch, p, c, m) ==> now.Some? && Leq(OfChange(ch), now.value))
            && (now.Some? ==> exists ch <- chs :: Contends(ch, p, c, m) && OfChange(ch) == now.value))
  {
    hide MergeRow, Apply, Deliver, MaxCl, ColAt, Undisturbed, LosesNone;
    var cl0 := CausalLength(MetaAt(db, p));
    var m := Winning(chs, p);
    assert AllWellFormed(s, d);
    SameMaxCl(d, chs, p, 0);
    UndisturbedLosesNone(s, db, d, v);
    DeliveredShape(s, db, d, v, p);
    assert RowInv(s, RowAt(db, p)) && RowAt(db, p).meta == MetaAt(db, p);
    MaxClBase(d, p, cl0);
    var row := RowAt(Deliver(s, db, d, v), p);
    if m % 2 == 0 {
      DeliveredDead(s, db, d, v, p, c);
    } else {
      DeliverColumn(s, db, d, v, p, c);
      if m == 1 || OnlyColumn(chs, p, c, m) { NoRemnant(s, db, d, v, p, c); }
      RemnantBeaten(d, p, c, m, cl0, ColAt(RowAt(db, p), c), ColAt(row, c));
    }
  }

  /** A zeroed remnant cannot survive a change with its own version, and the top value absorbs it. */
  lemma RemnantBeaten(d: seq<Change>, p: Pk, c: Name, m: int, cl0: int, was: Option<Clocked>, now: Option<Clocked>)
    requires Settled(d, p, c, m, cl0, was, now) && cl0 < m && (forall ch <- d :: ch.colVersion >= 0)
    ensures (OwnChange(d, p, c, m) || TopChange(d, p, c, m)) && now.Some? ==>
      exists ch <- d :: Contends(ch, p, c, m) && OfChange(ch) == now.value
  {
    if now.Some? && now.value.version == 0 && TopChange(d, p, c, m) && !OwnChange(d, p, c, m) {
      var ch :| ch in d && Contends(ch, p, c, m) && ch.value == TOP;
      CompareLaws(ch.value, now.value.value);
      TopIsGreatest(now.value.value);
      assert OfChange(ch) == now.value;
    }
  }

  /** A first life of row `p` that holds the top value in column `c`. */
  function TopRow(s: Schema, c: Name): Row {
    Row(Some(s.defaults[c := TOP]), map[c := Entry(1, 1, [], 0)])
  }

  lemma TopRowOk(s: Schema, p: Pk, c: Name)
    requires SchemaOk(s) && c in s.cols
    ensures Inv(s, Put(EMPTY_DB, p, TopRow(s, c)))
    ensures CausalLength(MetaAt(Put(EMPTY_DB, p, TopRow(s, c)), p)) == 1
    ensures ColAt(TopRow(s, c), c) == Some(Clocked(1, TOP))
  {
    var row := TopRow(s, c);
    assert c in row.meta && row.meta[c] == Entry(1, 1, [], 0);
    assert RowInv(s, row);
    assert MetaAt(Put(EMPTY_DB, p, row), p) == RowAt(Put(EMPTY_DB, p, row), p).meta;
    forall q ensures RowInv(s, RowAt(Put(EMPTY_DB, p, row), q)) {
      assert RowAt(EMPTY_DB, q) == Row(None, map[]);
    }
  }

  /** A merge at version 0 that meets nothing. */
  const AT_ZERO: Turn := Turn(0, UNMET)

  /** Start the winning life with a change to another column, then deliver everything. */
  lemma OtherColumnFirst(s: Schema, db: Db, w: Change, chs: seq<Change>, v: seq<Turn>, p: Pk, c: Name)
    requires SchemaOk(s) && AllWellFormed(s, chs) && c in s.cols
    requires |v| == |chs| && w in chs && forall t <- v :: t.met == UNMET
    requires Before(s, db, chs, p) && 0 <= CausalLength(MetaAt(db, p))
    requires w.pk == p && w.cl == Winning(chs, p) && w.name != c && w.cl % 2 == 1
    ensures Run(s, db, [w] + chs, [AT_ZERO] + v, chs, p)
    ensures var was := ColAt(RowAt(db, p), c);
      Settled(chs, p, c, w.cl, w.cl, if was.Some? then Some(Clocked(0, was.value.value)) else None,
              Outcome(s, db, [w] + chs, [AT_ZERO] + v, p, c))
  {
    hide MergeRow, Apply, WellFormed, ColAt, RowInv, Settled, LosesNone;
    assert RowInv(s, RowAt(db, p)) && RowAt(db, p).meta == MetaAt(db, p);
    var once := Deliver(s, db, [w], [AT_ZERO]);
    assert [w][..0] == [] && [AT_ZERO][..0] == [] && AllWellFormed(s, [w]);
    assert Deliver(s, db, [], []) == db;
    UnmetUndisturbed(s, db, [w], [AT_ZERO]);
    UnmetUndisturbed(s, once, chs, v);
    UnmetUndisturbed(s, db, [w] + chs, [AT_ZERO] + v);
    DeliverStep(s, db, [w], [AT_ZERO], p);
    UndisturbedLosesNone(s, db, [w], [AT_ZERO]);
    DeliverKeeps(s, db, [w], [AT_ZERO]);
    InvMeta(s, db);
    DeliverCl(s, db, [w], [AT_ZERO], p);
    MergeColumn(s, RowAt(db, p), w, 0, c);
    DeliverAppend(s, db, [w], [AT_ZERO], chs, v);
    MaxClIsMax(chs, p, 0);
    MaxClIsMax(chs, p, w.cl);
    assert CausalLength(MetaAt(once, p)) == w.cl;
    DeliverColumn(s, once, chs, v, p, c);
  }

  lemma FixedIsNecessary(s: Schema, chs: seq<Change>, p: Pk, c: Name)
    requires SchemaOk(s) && AllWellFormed(s, chs) && c in s.cols && !FixedWhen(chs, p, c)
    ensures !Fixed(s, chs, p, c)
  {
    hide MergeRow, Apply, WellFormed, Deliver, ColAt, RowInv, MaxCl, Put, Undisturbed, TopRow;
    var m := Winning(chs, p);
    MaxClIsMax(chs, p, 0);
    var w :| w in chs && w.pk == p && w.cl == m && w.name != c;
    var db1, db2 := EMPTY_DB, Put(EMPTY_DB, p, TopRow(s, c));
    var v := seq(|chs|, _ => AT_ZERO);
    TopRowOk(s, p, c);
    EmptyOk(s, p, c);
    OtherColumnFirst(s, db1, w, chs, v, p, c);
    OtherColumnFirst(s, db2, w, chs, v, p, c);
    var x, y := Outcome(s, db1, [w] + chs, [AT_ZERO] + v, p, c), Outcome(s, db2, [w] + chs, [AT_ZERO] + v, p, c);
    assert y.Some? && Leq(Clocked(0, TOP), y.value);
    if Agree(x, y) { AgreementBelowTop(chs, p, c, m, x, y); }
    assert Run(s, db1, [w] + chs, [AT_ZERO] + v, chs, p) && Run(s, db2, [w] + chs, [AT_ZERO] + v, chs, p);
  }

  lemma EmptyOk(s: Schema, p: Pk, c: Name)
    requires SchemaOk(s)
    ensures Inv(s, EMPTY_DB) && CausalLength(MetaAt(EMPTY_DB, p)) == 0 && ColAt(RowAt(EMPTY_DB, p), c).None?
  {
    forall q ensures RowInv(s, RowAt(EMPTY_DB, q)) {
      assert RowAt(EMPTY_DB, q) == Row(None, map[]);
    }
  }

  lemma AgreementBelowTop(chs: seq<Change>, p: Pk, c: Name, m: int, x: Option<Clocked>, y: Option<Clocked>)
    requires Settled(chs, p, c, m, m, None, x)
    requires y.Some? && Leq(Clocked(0, TOP), y.value) && Agree(x, y)
    requires !OwnChange(chs, p, c, m) && (forall ch <- chs :: ch.colVersion >= 0)
    ensures TopChange(chs, p, c, m)
  {
    var ch :| ch in chs && Contends(ch, p, c, m) && OfChange(ch) == x.value;
    assert ch.colVersion == 0;
    CompareLaws(x.value.value, TOP);
    CompareLaws(y.value.value, TOP);
    TopIsGreatest(x.value.value);
    TopIsGreatest(y.value.value);
  }

  /** The column's outcome is fixed by the change set if and only if the condition holds. */
  lemma FixedExactly(s: Schema, chs: seq<Change>, p: Pk, c: Name)
    requires SchemaOk(s) && AllWellFormed(s, chs) && c in s.cols
    ensures Fixed(s, chs, p, c) <==> FixedWhen(chs, p, c)
  {
    hide FixedWhen, Outcome, Run, Agree;
    if FixedWhen(chs, p, c) {
      forall db1, d1, v1, db2, d2, v2 | Run(s, db1, d1, v1, chs, p) && Run(s, db2, d2, v2, chs, p)
        ensures |v1| == |d1| && |v2| == |d2| && Agree(Outcome(s, db1, d1, v1, p, c), Outcome(s, db2, d2, v2, p, c))
      {
        RunWidth(s, db1, d1, v1, chs, p);
        RunWidth(s, db2, d2, v2, chs, p);
        FixedIsSufficient(s, chs, p, c, db1, d1, v1, db2, d2, v2);
      }
    } else {
      FixedIsNecessary(s, chs, p, c);
    }
  }

  lemma RunWidth(s: Schema, db: Db, d: seq<Change>, v: seq<Turn>, chs: seq<Change>, p: Pk)
    requires Run(s, db, d, v, chs, p)
    ensures |v| == |d|
  {
  }
}
