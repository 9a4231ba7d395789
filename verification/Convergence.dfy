/**
 Convergence of replicas that merge the same changes, in any order and with any repetition.
 A column is compared as the pair (column version, value); values are compared as
 `dbutils_value_compare` does, so "agree" means equal up to what that comparison can see.
 */
module Convergence {
  import opened Values
  import opened Wrappers
  import opened Replica

  datatype Clocked = Clocked(version: int, value: Value)

  /** What a row says about a column: its version and its value. */
  function ColAt(row: Row, c: Name): Option<Clocked> {
    if c in row.meta && row.live.Some? && c in row.live.value
    then Some(Clocked(row.meta[c].colVersion, row.live.value[c]))
    else None
  }

  function OfChange(ch: Change): Clocked {
    Clocked(ch.colVersion, ch.value)
  }

  predicate Leq(a: Clocked, b: Clocked) {
    a.version < b.version || (a.version == b.version && Compare(a.value, b.value) <= 0)
  }

  predicate Agree(a: Option<Clocked>, b: Option<Clocked>) {
    match (a, b)
    case (None, None) => true
    case (Some(x), Some(y)) => x.version == y.version && Seen(x.value) == Seen(y.value)
    case _ => false
  }

  lemma LeqLaws(a: Clocked, b: Clocked, c: Clocked)
    ensures Leq(a, a)
    ensures Leq(a, b) || Leq(b, a)
    ensures Leq(a, b) && Leq(b, a) ==> Agree(Some(a), Some(b))
    ensures Leq(a, b) && Leq(b, c) ==> Leq(a, c)
  {
    CompareLaws(a.value, a.value);
    CompareLaws(a.value, b.value);
    CompareLaws(b.value, c.value);
    CompareLaws(a.value, c.value);
    if Leq(a, b) && Leq(b, c) && a.version == b.version == c.version {
      CompareTransitive(c.value, b.value, a.value);
    }
  }

  lemma SchemaNames(s: Schema, c: Name)
    requires SchemaOk(s) && c in s.cols
    ensures c != SENTINEL
  {
  }

  /** A row that is not there shows no column. */
  lemma DeadColumn(s: Schema, row: Row, c: Name)
    requires RowInv(s, row) && CausalLength(row.meta) % 2 == 0
    ensures ColAt(row, c).None?
  {
  }

  /** The effect of one merge on one column, by how the two causal lengths compare. */
  lemma MergeColumn(s: Schema, row: Row, ch: Change, v: int, c: Name)
    requires SchemaOk(s) && RowInv(s, row) && WellFormed(s, ch) && c in s.cols
    ensures var cl := CausalLength(row.meta);
      var was, now := ColAt(row, c), ColAt(MergeRow(s, row, ch, v), c);
      && (ch.cl < cl ==> now == was)
      && (ch.cl == cl ==>
            now == if ch.name == c && (was.None? || !Leq(OfChange(ch), was.value)) then Some(OfChange(ch)) else was)
      && (ch.cl > cl && ch.cl % 2 == 0 ==> now.None?)
      && (ch.cl > cl && ch.cl % 2 == 1 ==>
            now == if ch.name == c then Some(OfChange(ch))
                   else if was.Some? then Some(Clocked(0, was.value.value)) else None)
  {
    if ch.cl > CausalLength(row.meta) && CausalLength(row.meta) % 2 == 0 && SENTINEL !in row.meta {
      assert row.meta == map[];
    }
  }

  /**
   What each merge of a delivery is given besides its change: the version the clock hands out, and the rows
   it meets.
   */
  datatype Turn = Turn(version: int, met: Met)

  /** Merge a sequence of changes in order. */
  function Deliver(s: Schema, db: Db, chs: seq<Change>, vs: seq<Turn>): Db
    requires |vs| == |chs|
    decreases |chs|
  {
    if chs == [] then db
    else
      var k := |chs| - 1;
      Apply(s, Deliver(s, db, chs[..k], vs[..k]), Merge(chs[k], vs[k].met), vs[k].version, 0)
  }

  /** No merge of the delivery loses a row. */
  ghost predicate LosesNone(s: Schema, db: Db, chs: seq<Change>, vs: seq<Turn>)
    requires |vs| == |chs|
    decreases |chs|
  {
    chs == [] ||
      var k := |chs| - 1;
      LosesNone(s, db, chs[..k], vs[..k]) && !LosesRow(Deliver(s, db, chs[..k], vs[..k]), Merge(chs[k], vs[k].met))
  }

  /**
   No merge of the delivery loses a row or writes to that of another key: none meets another uniqueness
   constraint.
   */
  ghost predicate Undisturbed(s: Schema, db: Db, chs: seq<Change>, vs: seq<Turn>)
    requires |vs| == |chs|
    decreases |chs|
  {
    chs == [] ||
      var k := |chs| - 1;
      var mid, op := Deliver(s, db, chs[..k], vs[..k]), Merge(chs[k], vs[k].met);
      Undisturbed(s, db, chs[..k], vs[..k]) && !LosesRow(mid, op) && !Redirects(mid, op)
  }

  lemma {:induction false} UndisturbedLosesNone(s: Schema, db: Db, chs: seq<Change>, vs: seq<Turn>)
    requires |vs| == |chs| && Undisturbed(s, db, chs, vs)
    ensures LosesNone(s, db, chs, vs)
    decreases |chs|
  {
    if chs != [] { UndisturbedLosesNone(s, db, chs[..|chs| - 1], vs[..|chs| - 1]); }
  }

  ghost predicate AllWellFormed(s: Schema, chs: seq<Change>) {
    forall ch <- chs :: WellFormed(s, ch)
  }

  /** The greatest causal length among a start value and the changes to one row. */
  function MaxCl(chs: seq<Change>, p: Pk, base: int): int
    decreases |chs|
  {
    if chs == [] then base
    else
      var k := |chs| - 1;
      var m := MaxCl(chs[..k], p, base);
      if chs[k].pk == p && chs[k].cl > m then chs[k].cl else m
  }

  lemma {:induction false} MaxClIsMax(chs: seq<Change>, p: Pk, base: int)
    ensures MaxCl(chs, p, base) >= base
    ensures forall ch <- chs :: ch.pk == p ==> ch.cl <= MaxCl(chs, p, base)
    ensures MaxCl(chs, p, base) == base || exists ch <- chs :: ch.pk == p && ch.cl == MaxCl(chs, p, base)
    decreases |chs|
  {
    if chs != [] {
      var k := |chs| - 1;
      MaxClIsMax(chs[..k], p, base);
      assert chs == chs[..k] + [chs[k]];
    }
  }

  ghost predicate AllMetaInv(s: Schema, db: Db) {
    forall p :: MetaInv(s, MetaAt(db, p))
  }

  lemma InvMeta(s: Schema, db: Db)
    requires Inv(s, db)
    ensures AllMetaInv(s, db)
  {
    forall p ensures MetaInv(s, MetaAt(db, p)) { assert RowInv(s, RowAt(db, p)); }
  }

  /**
   Delivery ends every row at the greatest causal length it was told of, whatever rows its merges lose or
   redirect.
   */
  lemma {:induction false} DeliverCl(s: Schema, db: Db, chs: seq<Change>, vs: seq<Turn>, p: Pk)
    requires SchemaOk(s) && AllMetaInv(s, db) && AllWellFormed(s, chs) && |vs| == |chs|
    ensures AllMetaInv(s, Deliver(s, db, chs, vs))
    ensures CausalLength(MetaAt(Deliver(s, db, chs, vs), p)) == MaxCl(chs, p, CausalLength(MetaAt(db, p)))
    decreases |chs|
  {
    hide Apply, MergeMeta, MetaInv;
    if chs != [] {
      var k := |chs| - 1;
      InitWellFormed(s, chs);
      DeliverCl(s, db, chs[..k], vs[..k], p);
      var mid := Deliver(s, db, chs[..k], vs[..k]);
      var ch, met, v := chs[k], vs[k].met, vs[k].version;
      forall r ensures MetaInv(s, MetaAt(Deliver(s, db, chs, vs), r)) {
        MergedMeta(s, mid, ch, met, v, 0, r);
        MergeMetaKeeps(s, MetaAt(mid, ch.pk), Shown(mid.table, ch.pk, met), ch, v);
      }
      MergedMeta(s, mid, ch, met, v, 0, p);
      MergeMetaKeeps(s, MetaAt(mid, ch.pk), Shown(mid.table, ch.pk, met), ch, v);
    }
  }

  /** A delivery that loses no row keeps the invariant. */
  lemma {:induction false} DeliverKeeps(s: Schema, db: Db, chs: seq<Change>, vs: seq<Turn>)
    requires SchemaOk(s) && Inv(s, db) && AllWellFormed(s, chs) && |vs| == |chs| && LosesNone(s, db, chs, vs)
    ensures Inv(s, Deliver(s, db, chs, vs))
    decreases |chs|
  {
    hide Apply, RowInv, LosesRow;
    if chs != [] {
      var k := |chs| - 1;
      InitWellFormed(s, chs);
      DeliverKeeps(s, db, chs[..k], vs[..k]);
      ApplyKeeps(s, Deliver(s, db, chs[..k], vs[..k]), Merge(chs[k], vs[k].met), vs[k].version, 0);
    }
  }

  /** And only such a delivery keeps it after each of its merges. */
  lemma {:induction false} DeliverKeepsExactly(s: Schema, db: Db, chs: seq<Change>, vs: seq<Turn>)
    requires SchemaOk(s) && Inv(s, db) && AllWellFormed(s, chs) && |vs| == |chs|
    ensures (forall k :: 0 <= k <= |chs| ==> Inv(s, Deliver(s, db, chs[..k], vs[..k]))) <==> LosesNone(s, db, chs, vs)
    decreases |chs|
  {
    hide Apply, Inv, LosesRow;
    assert chs[..|chs|] == chs && vs[..|chs|] == vs;
    if chs != [] {
      var n := |chs| - 1;
      var init, vinit := chs[..n], vs[..n];
      InitWellFormed(s, chs);
      DeliverKeepsExactly(s, db, init, vinit);
      forall k | 0 <= k <= n ensures init[..k] == chs[..k] && vinit[..k] == vs[..k] {}
      if LosesNone(s, db, init, vinit) {
        DeliverKeeps(s, db, init, vinit);
        ApplyKeeps(s, Deliver(s, db, init, vinit), Merge(chs[n], vs[n].met), vs[n].version, 0);
      }
    }
  }

  /** A change to column `c` of row `p` in the life numbered `m`. */
  predicate Contends(ch: Change, p: Pk, c: Name, m: int) {
    ch.pk == p && ch.name == c && ch.cl == m
  }

  /**
   What a delivery leaves in a column of a live row: something that dominates every contender of the
   winning life, and that is one of them, or what was there in that life, or a zeroed remnant.
   */
  ghost predicate Settled(chs: seq<Change>, p: Pk, c: Name, m: int, cl0: int, was: Option<Clocked>,
                          now: Option<Clocked>) {
    && (forall ch <- chs :: Contends(ch, p, c, m) ==> now.Some? && Leq(OfChange(ch), now.value))
    && (cl0 == m && was.Some? ==> now.Some? && Leq(was.value, now.value))
    && (now.Some? ==>
          || (exists ch <- chs :: Contends(ch, p, c, m) && OfChange(ch) == now.value)
          || (cl0 == m && now == was)
          || (cl0 < m && now.value.version == 0))
  }

  /** One more delivered change: only its own row moves, by one merge. */
  lemma DeliverStep(s: Schema, db: Db, chs: seq<Change>, vs: seq<Turn>, p: Pk)
    requires SchemaOk(s) && Inv(s, db) && AllWellFormed(s, chs)
    requires |vs| == |chs| && chs != [] && Undisturbed(s, db, chs, vs)
    ensures var k := |chs| - 1;
      var mid := RowAt(Deliver(s, db, chs[..k], vs[..k]), p);
      && chs == chs[..k] + [chs[k]]
      && Undisturbed(s, db, chs[..k], vs[..k])
      && RowInv(s, mid)
      && CausalLength(mid.meta) == MaxCl(chs[..k], p, CausalLength(MetaAt(db, p)))
      && RowAt(Deliver(s, db, chs, vs), p) == if chs[k].pk == p then MergeRow(s, mid, chs[k], vs[k].version) else mid
  {
    hide *;
    var k := |chs| - 1;
    DeliverUnfolds(s, db, chs, vs);
    InitWellFormed(s, chs);
    UndisturbedLosesNone(s, db, chs[..k], vs[..k]);
    DeliverKeeps(s, db, chs[..k], vs[..k]);
    InvMeta(s, db);
    DeliverCl(s, db, chs[..k], vs[..k], p);
    var mid := Deliver(s, db, chs[..k], vs[..k]);
    InvAt(s, mid, p);
    InvAt(s, mid, chs[k].pk);
    MergeRowAt(s, mid, chs[k], vs[k].met, vs[k].version, 0, p);
  }

  lemma DeliverUnfolds(s: Schema, db: Db, chs: seq<Change>, vs: seq<Turn>)
    requires |vs| == |chs| && chs != [] && Undisturbed(s, db, chs, vs)
    ensures var k := |chs| - 1;
      var mid, op := Deliver(s, db, chs[..k], vs[..k]), Merge(chs[k], vs[k].met);
      && chs == chs[..k] + [chs[k]]
      && Undisturbed(s, db, chs[..k], vs[..k]) && !LosesRow(mid, op) && !Redirects(mid, op)
      && Deliver(s, db, chs, vs) == Apply(s, mid, op, vs[k].version, 0)
  {
    hide Apply;
  }

  lemma InitWellFormed(s: Schema, chs: seq<Change>)
    requires AllWellFormed(s, chs) && chs != []
    ensures AllWellFormed(s, chs[..|chs| - 1]) && WellFormed(s, chs[|chs| - 1])
  {
    hide WellFormed;
  }

  lemma InvAt(s: Schema, db: Db, p: Pk)
    requires Inv(s, db)
    ensures RowInv(s, RowAt(db, p)) && RowAt(db, p).meta == MetaAt(db, p)
  {
    hide RowInv;
  }

  lemma {:induction false} DeliverColumn(s: Schema, db: Db, chs: seq<Change>, vs: seq<Turn>, p: Pk, c: Name)
    requires SchemaOk(s) && Inv(s, db) && AllWellFormed(s, chs)
    requires |vs| == |chs| && c in s.cols && Undisturbed(s, db, chs, vs)
    requires MaxCl(chs, p, CausalLength(MetaAt(db, p))) % 2 == 1
    ensures var cl0 := CausalLength(MetaAt(db, p));
      Settled(chs, p, c, MaxCl(chs, p, cl0), cl0, ColAt(RowAt(db, p), c), ColAt(RowAt(Deliver(s, db, chs, vs), p), c))
    decreases |chs|
  {
    hide MergeRow, RowInv, Apply, ColAt, WellFormed, Settled, Leq, AllWellFormed;
    var cl0 := CausalLength(MetaAt(db, p));
    var was := ColAt(RowAt(db, p), c);
    if chs == [] {
      NothingSettles(p, c, cl0, was);
    } else {
      hide Deliver, Undisturbed;
      var k := |chs| - 1;
      var init, ch := chs[..k], chs[k];
      var mid, now := RowAt(Deliver(s, db, init, vs[..k]), p), RowAt(Deliver(s, db, chs, vs), p);
      DeliverStep(s, db, chs, vs, p);
      InitWellFormed(s, chs);
      if ch.pk == p { MergeColumn(s, mid, ch, vs[k].version, c); }
      MaxClIsMax(init, p, cl0);
      if MaxCl(init, p, cl0) == MaxCl(chs, p, cl0) {
        DeliverColumn(s, db, init, vs[..k], p, c);
        StaysSettled(init, ch, p, c, MaxCl(chs, p, cl0), cl0, was, ColAt(mid, c), ColAt(now, c));
      } else {
        LifeSettles(init, ch, p, c, cl0, was, ColAt(mid, c), ColAt(now, c));
      }
    }
  }

  lemma NothingSettles(p: Pk, c: Name, cl0: int, was: Option<Clocked>)
    ensures Settled([], p, c, cl0, cl0, was, was)
  {
    if was.Some? { LeqLaws(was.value, was.value, was.value); }
  }

  /** A change that begins a new life: it is the only contender so far. */
  lemma LifeSettles(init: seq<Change>, ch: Change, p: Pk, c: Name, cl0: int, was: Option<Clocked>,
                    mid: Option<Clocked>, now: Option<Clocked>)
    requires ch.pk == p && ch.cl > cl0 && forall x <- init :: x.pk == p ==> x.cl < ch.cl
    requires now ==
      if ch.name == c then Some(OfChange(ch)) else if mid.Some? then Some(Clocked(0, mid.value.value)) else None
    ensures Settled(init + [ch], p, c, ch.cl, cl0, was, now)
  {
    LeqLaws(OfChange(ch), OfChange(ch), OfChange(ch));
    assert forall x :: x in init + [ch] <==> x in init || x == ch;
  }

  /** The last change of a delivery, when the winning life had already begun. */
  lemma StaysSettled(init: seq<Change>, ch: Change, p: Pk, c: Name, m: int, cl0: int,
                     was: Option<Clocked>, mid: Option<Clocked>, now: Option<Clocked>)
    requires Settled(init, p, c, m, cl0, was, mid)
    requires now ==
      if Contends(ch, p, c, m) && (mid.None? || !Leq(OfChange(ch), mid.value)) then Some(OfChange(ch)) else mid
    ensures Settled(init + [ch], p, c, m, cl0, was, now)
  {
    LeqLaws(OfChange(ch), OfChange(ch), OfChange(ch));
    if mid.Some? {
      LeqLaws(OfChange(ch), mid.value, OfChange(ch));
      forall x: Clocked | Leq(x, mid.value) ensures Leq(x, now.value) {
        LeqLaws(x, mid.value, now.value);
      }
    }
    assert forall x :: x in init + [ch] <==> x in init || x == ch;
  }

  ghost predicate SameChanges(a: seq<Change>, b: seq<Change>) {
    forall ch :: ch in a <==> ch in b
  }

  lemma SameMaxCl(a: seq<Change>, b: seq<Change>, p: Pk, base: int)
    requires SameChanges(a, b)
    ensures MaxCl(a, p, base) == MaxCl(b, p, base)
  {
    MaxClIsMax(a, p, base);
    MaxClIsMax(b, p, base);
  }

  lemma SameOwnChange(a: seq<Change>, b: seq<Change>, p: Pk, c: Name, m: int)
    requires SameChanges(a, b)
    ensures OwnChange(a, p, c, m) ==> OwnChange(b, p, c, m)
    ensures (forall ch <- a :: Canonical(ch.value)) ==> forall ch <- b :: Canonical(ch.value)
  {
    hide Contends, Canonical;
  }

  /** Two settled outcomes of the same contenders agree once some contender has a version of its own. */
  lemma SettledAgree(
    a: seq<Change>, b: seq<Change>, p: Pk, c: Name, m: int,
    clA: int, wasA: Option<Clocked>, nowA: Option<Clocked>, clB: int, wasB: Option<Clocked>, nowB: Option<Clocked>)
    requires SameChanges(a, b)
    requires Settled(a, p, c, m, clA, wasA, nowA) && Settled(b, p, c, m, clB, wasB, nowB)
    requires clA == m ==> clB == m && wasA == wasB
    requires clB == m ==> clA == m
    requires clA == m || OwnChange(a, p, c, m)
    ensures Agree(nowA, nowB)
  {
    if nowA.Some? && nowB.Some? {
      LeqLaws(nowA.value, nowB.value, nowA.value);
    }
  }

  /** Some change of life `m` writes the column with a version of its own. */
  ghost predicate OwnChange(chs: seq<Change>, p: Pk, c: Name, m: int) {
    exists ch <- chs :: Contends(ch, p, c, m) && ch.colVersion >= 1
  }

  /** The guard of the convergence theorem for one column: the winning life has its own change to it. */
  ghost predicate Determined(chs: seq<Change>, db: Db, p: Pk, c: Name) {
    var cl0 := CausalLength(MetaAt(db, p));
    var m := MaxCl(chs, p, cl0);
    m % 2 == 1 ==> cl0 == m || OwnChange(chs, p, c, m)
  }

  /**
   Convergence: from the same state, any two deliveries of the same set of changes end with the same causal
   length for every row. If they lose no row, it is present after both or after neither; and if none of
   their merges meets another uniqueness constraint, they agree on every determined column.
   */
  lemma Convergence(s: Schema, db: Db, a: seq<Change>, va: seq<Turn>, b: seq<Change>, vb: seq<Turn>, p: Pk)
    requires SchemaOk(s) && Inv(s, db) && AllWellFormed(s, a) && AllWellFormed(s, b)
    requires |va| == |a| && |vb| == |b| && SameChanges(a, b)
    ensures var x, y := Deliver(s, db, a, va), Deliver(s, db, b, vb);
      && CausalLength(MetaAt(x, p)) == CausalLength(MetaAt(y, p))
      && (LosesNone(s, db, a, va) && LosesNone(s, db, b, vb) ==> (p in x.table <==> p in y.table))
      && (Undisturbed(s, db, a, va) && Undisturbed(s, db, b, vb) ==>
            forall c <- s.cols :: Determined(a, db, p, c) ==> Agree(ColAt(RowAt(x, p), c), ColAt(RowAt(y, p), c)))
  {
    hide Deliver, Inv, LosesNone, Undisturbed, ColAt, Agree, AllWellFormed, Determined;
    InvMeta(s, db);
    SameMaxCl(a, b, p, CausalLength(MetaAt(db, p)));
    DeliverCl(s, db, a, va, p);
    DeliverCl(s, db, b, vb, p);
    if LosesNone(s, db, a, va) && LosesNone(s, db, b, vb) {
      DeliveredShape(s, db, a, va, p);
      DeliveredShape(s, db, b, vb, p);
    }
    if Undisturbed(s, db, a, va) && Undisturbed(s, db, b, vb) {
      forall c | c in s.cols && Determined(a, db, p, c)
        ensures Agree(ColAt(RowAt(Deliver(s, db, a, va), p), c), ColAt(RowAt(Deliver(s, db, b, vb), p), c))
      {
        ConvergedColumn(s, db, a, va, b, vb, p, c);
      }
    }
  }

  lemma ConvergedColumn(s: Schema, db: Db, a: seq<Change>, va: seq<Turn>, b: seq<Change>, vb: seq<Turn>, p: Pk, c: Name)
    requires SchemaOk(s) && Inv(s, db) && AllWellFormed(s, a) && AllWellFormed(s, b) && c in s.cols
    requires |va| == |a| && |vb| == |b| && SameChanges(a, b) && Determined(a, db, p, c)
    requires Undisturbed(s, db, a, va) && Undisturbed(s, db, b, vb)
    ensures Agree(ColAt(RowAt(Deliver(s, db, a, va), p), c), ColAt(RowAt(Deliver(s, db, b, vb), p), c))
  {
    hide Deliver, ColAt, MaxCl, Undisturbed, Settled, MetaInv;
    var x, y := RowAt(Deliver(s, db, a, va), p), RowAt(Deliver(s, db, b, vb), p);
    var cl0, was := CausalLength(MetaAt(db, p)), ColAt(RowAt(db, p), c);
    var m := MaxCl(a, p, cl0);
    SameMaxCl(a, b, p, cl0);
    if m % 2 == 1 {
      DeliverColumn(s, db, a, va, p, c);
      DeliverColumn(s, db, b, vb, p, c);
      SettledAgree(a, b, p, c, m, cl0, was, ColAt(x, c), cl0, was, ColAt(y, c));
    } else {
      DeliveredDead(s, db, a, va, p, c);
      DeliveredDead(s, db, b, vb, p, c);
    }
  }

  /** A row that a delivery leaves dead shows no column. */
  lemma DeliveredDead(s: Schema, db: Db, chs: seq<Change>, vs: seq<Turn>, p: Pk, c: Name)
    requires SchemaOk(s) && Inv(s, db) && AllWellFormed(s, chs) && |vs| == |chs| && Undisturbed(s, db, chs, vs)
    requires MaxCl(chs, p, CausalLength(MetaAt(db, p))) % 2 == 0
    ensures ColAt(RowAt(Deliver(s, db, chs, vs), p), c).None?
  {
    hide Deliver, MaxCl, Undisturbed, LosesNone;
    UndisturbedLosesNone(s, db, chs, vs);
    DeliveredShape(s, db, chs, vs, p);
  }

  ghost predicate CanonicalRow(s: Schema, row: Row) {
    row.live.Some? ==> forall c <- s.cols :: c in row.live.value && Canonical(row.live.value[c])
  }

  lemma SettledCanonical(chs: seq<Change>, p: Pk, c: Name, m: int, cl0: int, was: Option<Clocked>, now: Option<Clocked>)
    requires Settled(chs, p, c, m, cl0, was, now) && (was.Some? ==> Canonical(was.value.value))
    requires forall ch <- chs :: Canonical(ch.value)
    requires OwnChange(chs, p, c, m)
    ensures now.Some? && Canonical(now.value.value)
  {
  }

  lemma ConvergedColumnIdentical(s: Schema, db: Db, a: seq<Change>, va: seq<Turn>, b: seq<Change>, vb: seq<Turn>,
                                 p: Pk, c: Name)
    requires SchemaOk(s) && Inv(s, db) && AllWellFormed(s, a) && AllWellFormed(s, b)
    requires |va| == |a| && |vb| == |b| && SameChanges(a, b) && c in s.cols
    requires Undisturbed(s, db, a, va) && Undisturbed(s, db, b, vb)
    requires CanonicalRow(s, RowAt(db, p)) && forall ch <- a :: Canonical(ch.value)
    requires MaxCl(a, p, CausalLength(MetaAt(db, p))) % 2 == 1
    requires OwnChange(a, p, c, MaxCl(a, p, CausalLength(MetaAt(db, p))))
    ensures var x, y := ColAt(RowAt(Deliver(s, db, a, va), p), c), ColAt(RowAt(Deliver(s, db, b, vb), p), c);
      x.Some? && x == y
  {
    hide Apply, MergeRow, Contends, Deliver, MaxCl, RowInv, Settled, OwnChange, Seen;
    var cl0 := CausalLength(MetaAt(db, p));
    var x, y := ColAt(RowAt(Deliver(s, db, a, va), p), c), ColAt(RowAt(Deliver(s, db, b, vb), p), c);
    Convergence(s, db, a, va, b, vb, p);
    SameMaxCl(a, b, p, cl0);
    SameOwnChange(a, b, p, c, MaxCl(a, p, cl0));
    DeliverColumn(s, db, a, va, p, c);
    DeliverColumn(s, db, b, vb, p, c);
    SettledCanonical(a, p, c, MaxCl(a, p, cl0), cl0, ColAt(RowAt(db, p), c), x);
    SettledCanonical(b, p, c, MaxCl(a, p, cl0), cl0, ColAt(RowAt(db, p), c), y);
    assert Determined(a, db, p, c);
  }

  /** If the winning life has its own change to every column, the two rows hold the same values. */
  lemma ConvergedRowsIdentical(s: Schema, db: Db, a: seq<Change>, va: seq<Turn>, b: seq<Change>, vb: seq<Turn>, p: Pk)
    requires SchemaOk(s) && Inv(s, db) && AllWellFormed(s, a) && AllWellFormed(s, b)
    requires |va| == |a| && |vb| == |b| && SameChanges(a, b)
    requires Undisturbed(s, db, a, va) && Undisturbed(s, db, b, vb)
    requires CanonicalRow(s, RowAt(db, p)) && forall ch <- a :: Canonical(ch.value)
    requires forall c <- s.cols :: OwnChange(a, p, c, MaxCl(a, p, CausalLength(MetaAt(db, p))))
    ensures RowAt(Deliver(s, db, a, va), p).live == RowAt(Deliver(s, db, b, vb), p).live
  {
    hide Apply, MergeRow, OwnChange, WellFormed, Deliver, MaxCl, AllWellFormed, SameChanges, Inv, RowInv, RowAt;
    hide CausalLength;
    hide CanonicalRow, Undisturbed, LosesNone;
    var x, y := RowAt(Deliver(s, db, a, va), p), RowAt(Deliver(s, db, b, vb), p);
    SameMaxCl(a, b, p, CausalLength(MetaAt(db, p)));
    UndisturbedLosesNone(s, db, a, va);
    UndisturbedLosesNone(s, db, b, vb);
    DeliveredShape(s, db, a, va, p);
    DeliveredShape(s, db, b, vb, p);
    if x.live.Some? {
      hide ColAt, RowInv, OwnChange;
      forall c | c in s.cols ensures ColAt(x, c).Some? && ColAt(x, c) == ColAt(y, c) {
        ConvergedColumnIdentical(s, db, a, va, b, vb, p, c);
      }
      SameColumns(s, x, y);
    }
  }

  lemma SameColumns(s: Schema, x: Row, y: Row)
    requires x.live.Some? && y.live.Some? && x.live.value.Keys == y.live.value.Keys == ColSet(s)
    requires forall c <- s.cols :: ColAt(x, c).Some? && ColAt(x, c) == ColAt(y, c)
    ensures x.live == y.live
  {
    forall c | c in x.live.value ensures x.live.value[c] == y.live.value[c] {
      assert c in s.cols && ColAt(x, c) == ColAt(y, c);
    }
    assert x.live.value == y.live.value;
  }

  /** A delivered row is present exactly when the winning causal length is odd, with all its columns. */
  lemma DeliveredShape(s: Schema, db: Db, chs: seq<Change>, vs: seq<Turn>, p: Pk)
    requires SchemaOk(s) && Inv(s, db) && AllWellFormed(s, chs) && |vs| == |chs| && LosesNone(s, db, chs, vs)
    ensures var row := RowAt(Deliver(s, db, chs, vs), p);
      && RowInv(s, row) && row.meta == MetaAt(Deliver(s, db, chs, vs), p)
      && (row.live.Some? ==> row.live.value.Keys == ColSet(s))
      && (row.live.Some? <==> MaxCl(chs, p, CausalLength(MetaAt(db, p))) % 2 == 1)
      && (row.live.Some? <==> p in Deliver(s, db, chs, vs).table)
  {
    hide Apply, MergeRow, WellFormed, Deliver, MaxCl, AllWellFormed, MetaInv, LosesNone;
    InvMeta(s, db);
    DeliverCl(s, db, chs, vs, p);
    DeliverKeeps(s, db, chs, vs);
    assert RowInv(s, RowAt(Deliver(s, db, chs, vs), p));
  }

  // ---------- where convergence stops ----------

  const FIRST_LIFE: Change := Change([1], COL, Integer(7), 1, 1, [9], 1, 0)
  const THIRD_LIFE: Change := Change([1], SENTINEL, Null, 3, 2, [9], 3, 0)

  /** Two turns that meet nothing. */
  const PLAIN_TURNS: seq<Turn> := [Turn(1, UNMET), Turn(2, UNMET)]

  lemma {:induction false} UnmetUndisturbed(s: Schema, db: Db, chs: seq<Change>, vs: seq<Turn>)
    requires |vs| == |chs| && forall v <- vs :: v.met == UNMET
    ensures Undisturbed(s, db, chs, vs)
    decreases |chs|
  {
    hide Deliver;
    if chs != [] {
      var k := |chs| - 1;
      assert forall v <- vs[..k] :: v in vs;
      assert vs[k] in vs;
      UnmetUndisturbed(s, db, chs[..k], vs[..k]);
    }
  }

  /**
   A column that only an earlier life wrote is not determined, and two orders of the same two changes
   leave it different: one replica keeps the earlier value as a zeroed remnant, the other the default.
   */
  lemma UndeterminedColumnDiverges()
    ensures SchemaOk(ONE_COLUMN) && Inv(ONE_COLUMN, EMPTY_DB)
    ensures AllWellFormed(ONE_COLUMN, [FIRST_LIFE, THIRD_LIFE])
    ensures !Determined([FIRST_LIFE, THIRD_LIFE], EMPTY_DB, [1], COL)
    ensures Undisturbed(ONE_COLUMN, EMPTY_DB, [FIRST_LIFE, THIRD_LIFE], PLAIN_TURNS)
    ensures Undisturbed(ONE_COLUMN, EMPTY_DB, [THIRD_LIFE, FIRST_LIFE], PLAIN_TURNS)
    ensures RowAt(Deliver(ONE_COLUMN, EMPTY_DB, [FIRST_LIFE, THIRD_LIFE], PLAIN_TURNS), [1]).live ==
      Some(map[COL := Integer(7)])
    ensures RowAt(Deliver(ONE_COLUMN, EMPTY_DB, [THIRD_LIFE, FIRST_LIFE], PLAIN_TURNS), [1]).live ==
      Some(map[COL := Null])
  {
    var s := ONE_COLUMN;
    assert FIRST_LIFE.name != SENTINEL by { assert |FIRST_LIFE.name| == 1; }
    EmptyInv(s);
    DeliverTwo(s, FIRST_LIFE, THIRD_LIFE);
    DeliverTwo(s, THIRD_LIFE, FIRST_LIFE);
    FirstThenThird();
    assert MaxCl([FIRST_LIFE, THIRD_LIFE], [1], 0) == 3 by {
      assert [FIRST_LIFE, THIRD_LIFE][..1] == [FIRST_LIFE];
      assert MaxCl([FIRST_LIFE], [1], 0) == 1;
    }
  }

  lemma FirstThenThird()
    ensures var r0 := Row(None, map[]);
      && MergeRow(ONE_COLUMN, MergeRow(ONE_COLUMN, r0, FIRST_LIFE, 1), THIRD_LIFE, 2).live ==
           Some(map[COL := Integer(7)])
      && MergeRow(ONE_COLUMN, MergeRow(ONE_COLUMN, r0, THIRD_LIFE, 1), FIRST_LIFE, 2).live ==
           Some(map[COL := Null])
  {
    assert FIRST_LIFE.name != SENTINEL by { assert |FIRST_LIFE.name| == 1; }
    var r1 := MergeRow(ONE_COLUMN, Row(None, map[]), FIRST_LIFE, 1);
    assert ONE_COLUMN.defaults[COL := Integer(7)] == map[COL := Integer(7)];
    assert r1.live == Some(map[COL := Integer(7)]) && COL in r1.meta && SENTINEL !in r1.meta;
  }

  lemma DeliverTwo(s: Schema, a: Change, b: Change)
    requires a.pk == b.pk && SchemaOk(s) && WellFormed(s, a) && WellFormed(s, b)
    ensures Undisturbed(s, EMPTY_DB, [a, b], PLAIN_TURNS)
    ensures RowAt(Deliver(s, EMPTY_DB, [a, b], PLAIN_TURNS), a.pk) ==
      MergeRow(s, MergeRow(s, Row(None, map[]), a, 1), b, 2)
  {
    hide Apply, MergeRow, LosesRow, RowInv, WellFormed;
    UnmetUndisturbed(s, EMPTY_DB, [a, b], PLAIN_TURNS);
    EmptyInv(s);
    assert [a, b][..1] == [a] && PLAIN_TURNS[..1] == [Turn(1, UNMET)];
    assert [a][..0] == [] && [Turn(1, UNMET)][..0] == [];
    assert AllWellFormed(s, [a, b]);
    DeliverStep(s, EMPTY_DB, [a, b], PLAIN_TURNS, a.pk);
    DeliverStep(s, EMPTY_DB, [a], [Turn(1, UNMET)], a.pk);
    assert Deliver(s, EMPTY_DB, [], []) == EMPTY_DB;
  }

  /** Two rows with the same value, of a column that is UNIQUE. */
  const ONE_VALUE: seq<Change> := [SAME_VALUE, SAME_VALUE.(pk := OLD_KEY)]
  const TURNED: seq<Change> := [SAME_VALUE.(pk := OLD_KEY), SAME_VALUE]

  function Onto(p: Pk): seq<Turn> {
    [Turn(1, UNMET), Turn(2, Met(false, Some(p), {}, None))]
  }

  /**
   Whichever comes first stays, and the other never gets its row: a lost row is what keeps presence from
   converging.
   */
  lemma UniqueValuesDiverge()
    ensures SchemaOk(ONE_COLUMN) && Inv(ONE_COLUMN, EMPTY_DB) && SameChanges(ONE_VALUE, TURNED)
    ensures AllWellFormed(ONE_COLUMN, ONE_VALUE) && AllWellFormed(ONE_COLUMN, TURNED)
    ensures var x := Deliver(ONE_COLUMN, EMPTY_DB, ONE_VALUE, Onto(NEW_KEY));
      var y := Deliver(ONE_COLUMN, EMPTY_DB, TURNED, Onto(OLD_KEY));
      && NEW_KEY in x.table && OLD_KEY !in x.table
      && OLD_KEY in y.table && NEW_KEY !in y.table
  {
    assert OLD_KEY[5] != NEW_KEY[5] && |COL| == 1;
    EmptyInv(ONE_COLUMN);
    FirstStays(SAME_VALUE, SAME_VALUE.(pk := OLD_KEY));
    FirstStays(SAME_VALUE.(pk := OLD_KEY), SAME_VALUE);
  }

  lemma FirstStays(a: Change, b: Change)
    requires a.pk != b.pk && a.cl == b.cl == 1 && a.name == b.name == COL
    ensures var table := Deliver(ONE_COLUMN, EMPTY_DB, [a, b], Onto(a.pk)).table;
      a.pk in table && b.pk !in table
  {
    assert |COL| == 1 && COL != SENTINEL;
    assert [a, b][..1] == [a] && Onto(a.pk)[..1] == [Turn(1, UNMET)];
    assert [a][..0] == [] && [Turn(1, UNMET)][..0] == [];
    var mid := Deliver(ONE_COLUMN, EMPTY_DB, [a], [Turn(1, UNMET)]);
    assert Deliver(ONE_COLUMN, EMPTY_DB, [], []) == EMPTY_DB;
    assert mid == Apply(ONE_COLUMN, EMPTY_DB, Merge(a, UNMET), 1, 0) by { hide Apply; }
    assert CausalLength(MetaAt(EMPTY_DB, a.pk)) == 0;
    assert mid.table == Upsert(ONE_COLUMN, map[], a, UNMET);
    MergedMeta(ONE_COLUMN, EMPTY_DB, a, UNMET, 1, 0, b.pk);
    assert a.pk in mid.table && b.pk !in mid.table && MetaAt(mid, b.pk) == map[];
  }
}
