/**
 Exactly when the order of delivery does not matter to a column: from one state, every delivery of a change
 set leaves it the same. The guard of `Convergence.Convergence` is one of several ways for that to hold.
 */
module DeliveryOrder {
  import opened Values
  import opened Wrappers
  import opened Replica
  import opened Convergence
  import opened Determinism

  /** A delivery of the changes, in any order and repetition, in which no merge meets another uniqueness constraint. */
  ghost predicate Delivery(s: Schema, db: Db, d: seq<Change>, v: seq<Turn>, chs: seq<Change>) {
    |v| == |d| && SameChanges(d, chs) && Undisturbed(s, db, d, v)
  }

  /** Any two deliveries of the changes leave the column the same. */
  ghost predicate OrderFree(s: Schema, db: Db, chs: seq<Change>, p: Pk, c: Name) {
    forall d1, v1, d2, v2 {:trigger Delivery(s, db, d1, v1, chs), Delivery(s, db, d2, v2, chs)} ::
      Delivery(s, db, d1, v1, chs) && Delivery(s, db, d2, v2, chs)
      ==> Agree(Outcome(s, db, d1, v1, p, c), Outcome(s, db, d2, v2, p, c))
  }

  // ---------- the condition, read off the state and the change set ----------

  /** A change to the column before life `m`: in a life in between, or in the present one and above what is there. */
  ghost predicate Earlier(ch: Change, p: Pk, c: Name, cl0: int, m: int, was: Option<Clocked>) {
    && ch.pk == p && ch.name == c
    && (cl0 < ch.cl < m || (ch.cl == cl0 && (was.None? || !Leq(OfChange(ch), was.value))))
  }

  /** A value the column may hold when life `m` begins. */
  ghost predicate Candidate(chs: seq<Change>, p: Pk, c: Name, cl0: int, m: int, was: Option<Clocked>, v: Value) {
    || (was.Some? && v == was.value.value)
    || exists ch <- chs :: Earlier(ch, p, c, cl0, m, was) && ch.value == v
  }

  ghost predicate Contended(chs: seq<Change>, p: Pk, c: Name, m: int) {
    exists ch <- chs :: Contends(ch, p, c, m)
  }

  /** No change takes the row away between the present life and life `m`. */
  ghost predicate NeverGone(chs: seq<Change>, p: Pk, cl0: int, m: int) {
    forall ch <- chs :: ch.pk == p && cl0 < ch.cl < m ==> ch.cl % 2 == 1
  }

  /** No candidate shows through what the winning life says about the column. */
  ghost predicate Covered(chs: seq<Change>, p: Pk, c: Name, cl0: int, m: int, was: Option<Clocked>) {
    if Contended(chs, p, c, m) then
      forall v :: Candidate(chs, p, c, cl0, m, was, v) ==>
        exists ch <- chs :: Contends(ch, p, c, m) && Compare(v, ch.value) <= 0
    else if was.None? then forall v :: !Candidate(chs, p, c, cl0, m, was, v)
    else
      && NeverGone(chs, p, cl0, m)
      && forall v :: Candidate(chs, p, c, cl0, m, was, v) ==> Seen(v) == Seen(was.value.value)
  }

  /**
   The row ends up deleted, or in the life it is in; or the winning life writes the column with a version of
   its own, or writes nothing else; or no earlier value can show through.
   */
  ghost predicate OrderFreeWhen(chs: seq<Change>, db: Db, p: Pk, c: Name) {
    var cl0, was := CausalLength(MetaAt(db, p)), ColAt(RowAt(db, p), c);
    var m := MaxCl(chs, p, cl0);
    m % 2 == 0 || cl0 == m || OwnChange(chs, p, c, m) || OnlyColumn(chs, p, c, m) || Covered(chs, p, c, cl0, m, was)
  }

  // ---------- what a delivery can leave ----------

  /** Where the value of a column comes from, with the row at causal length `cl`. */
  ghost predicate Traced(chs: seq<Change>, p: Pk, c: Name, cl0: int, m: int, was: Option<Clocked>, cl: int,
                         now: Option<Clocked>) {
    && (now.Some? ==>
          || Candidate(chs, p, c, cl0, m, was, now.value.value)
          || (cl == m && exists ch <- chs :: Contends(ch, p, c, m) && OfChange(ch) == now.value))
    && (cl == cl0 && was.Some? ==> now.Some? && Leq(was.value, now.value))
    && (was.Some? && NeverGone(chs, p, cl0, m) ==> now.Some?)
  }

  /** One merge on a column, as `Convergence.MergeColumn` describes it. */
  function Merged(ch: Change, c: Name, cl: int, was: Option<Clocked>): Option<Clocked> {
    if ch.cl < cl then was
    else if ch.cl == cl then
      if ch.name == c && (was.None? || !Leq(OfChange(ch), was.value)) then Some(OfChange(ch)) else was
    else if ch.cl % 2 == 0 then None
    else if ch.name == c then Some(OfChange(ch))
    else if was.Some? then Some(Clocked(0, was.value.value)) else None
  }

  lemma TraceStep(chs: seq<Change>, p: Pk, c: Name, cl0: int, m: int, was: Option<Clocked>, cl: int,
                  now: Option<Clocked>, ch: Change)
    requires Traced(chs, p, c, cl0, m, was, cl, now) && cl0 <= cl <= m && m % 2 == 1 && cl0 < m
    requires ch in chs && ch.pk == p && ch.cl <= m
    ensures Traced(chs, p, c, cl0, m, was, if ch.cl > cl then ch.cl else cl, Merged(ch, c, cl, now))
  {
    if ch.cl == cl && ch.name == c && (now.None? || !Leq(OfChange(ch), now.value)) {
      if was.Some? && cl == cl0 {
        LeqLaws(OfChange(ch), was.value, now.value);
        LeqLaws(now.value, OfChange(ch), now.value);
        LeqLaws(was.value, now.value, OfChange(ch));
      }
      assert cl < m ==> Earlier(ch, p, c, cl0, m, was);
      assert cl == m ==> Contends(ch, p, c, m);
    } else if ch.cl > cl && ch.name == c && ch.cl % 2 == 1 {
      assert ch.cl < m ==> Earlier(ch, p, c, cl0, m, was);
      assert ch.cl == m ==> Contends(ch, p, c, m);
    }
  }

  lemma {:induction false} DeliverTraced(s: Schema, db: Db, d: seq<Change>, vs: seq<Turn>, chs: seq<Change>, p: Pk,
                                         c: Name)
    requires SchemaOk(s) && Inv(s, db) && AllWellFormed(s, d) && |vs| == |d| && c in s.cols && Undisturbed(s, db, d, vs)
    requires forall ch <- d :: ch in chs
    requires var cl0 := CausalLength(MetaAt(db, p)); cl0 < MaxCl(chs, p, cl0) && MaxCl(chs, p, cl0) % 2 == 1
    ensures var cl0, was := CausalLength(MetaAt(db, p)), ColAt(RowAt(db, p), c);
      Traced(chs, p, c, cl0, MaxCl(chs, p, cl0), was, MaxCl(d, p, cl0), Outcome(s, db, d, vs, p, c))
    decreases |d|
  {
    hide MergeRow, Apply, ColAt, WellFormed, RowInv, Traced;
    var cl0, was := CausalLength(MetaAt(db, p)), ColAt(RowAt(db, p), c);
    var m := MaxCl(chs, p, cl0);
    if d == [] {
      StartTraced(chs, p, c, cl0, m, was);
    } else {
      var k := |d| - 1;
      var init, ch := d[..k], d[k];
      DeliverStep(s, db, d, vs, p);
      DeliverTraced(s, db, init, vs[..k], chs, p, c);
      if ch.pk == p {
        var mid := RowAt(Deliver(s, db, init, vs[..k]), p);
        MergeColumn(s, mid, ch, vs[k].version, c);
        MaxClIsMax(init, p, cl0);
        MaxClIsMax(chs, p, cl0);
        TraceStep(chs, p, c, cl0, m, was, MaxCl(init, p, cl0), ColAt(mid, c), ch);
      }
    }
  }

  lemma StartTraced(chs: seq<Change>, p: Pk, c: Name, cl0: int, m: int, was: Option<Clocked>)
    ensures Traced(chs, p, c, cl0, m, was, cl0, was)
  {
    if was.Some? { LeqLaws(was.value, was.value, was.value); }
  }

  // ---------- the condition suffices ----------

  lemma CoveredAgree(chs: seq<Change>, p: Pk, c: Name, cl0: int, m: int, was: Option<Clocked>, x: Option<Clocked>,
                     y: Option<Clocked>)
    requires Covered(chs, p, c, cl0, m, was) && cl0 < m && forall ch <- chs :: ch.colVersion >= 0
    requires Settled(chs, p, c, m, cl0, was, x) && Traced(chs, p, c, cl0, m, was, m, x)
    requires Settled(chs, p, c, m, cl0, was, y) && Traced(chs, p, c, cl0, m, was, m, y)
    ensures Agree(x, y)
  {
    if Contended(chs, p, c, m) {
      CoveredBelow(chs, p, c, cl0, m, was, x, y);
      CoveredBelow(chs, p, c, cl0, m, was, y, x);
      LeqLaws(x.value, y.value, x.value);
    }
  }

  lemma CoveredBelow(chs: seq<Change>, p: Pk, c: Name, cl0: int, m: int, was: Option<Clocked>, x: Option<Clocked>,
                     y: Option<Clocked>)
    requires Covered(chs, p, c, cl0, m, was) && cl0 < m
    requires (forall ch <- chs :: ch.colVersion >= 0) && Contended(chs, p, c, m)
    requires Settled(chs, p, c, m, cl0, was, x) && Traced(chs, p, c, cl0, m, was, m, x)
    requires Settled(chs, p, c, m, cl0, was, y)
    ensures x.Some? && y.Some? && Leq(x.value, y.value)
  {
    if !(exists ch <- chs :: Contends(ch, p, c, m) && OfChange(ch) == x.value) {
      var ch :| ch in chs && Contends(ch, p, c, m) && Compare(x.value.value, ch.value) <= 0;
      LeqLaws(x.value, OfChange(ch), y.value);
    }
  }

  /** What one delivery leaves, under each way the condition can hold. */
  lemma OutcomeFacts(s: Schema, db: Db, d: seq<Change>, v: seq<Turn>, chs: seq<Change>, p: Pk, c: Name)
    requires SchemaOk(s) && Inv(s, db) && AllWellFormed(s, chs) && c in s.cols && Delivery(s, db, d, v, chs)
    ensures var cl0, was := CausalLength(MetaAt(db, p)), ColAt(RowAt(db, p), c);
      var m, now := MaxCl(chs, p, cl0), Outcome(s, db, d, v, p, c);
      && (m % 2 == 0 ==> now.None?)
      && (m % 2 == 1 ==> Settled(chs, p, c, m, cl0, was, now))
      && (m % 2 == 1 && cl0 < m ==> Traced(chs, p, c, cl0, m, was, m, now))
      && (m % 2 == 1 && cl0 < m && OnlyColumn(chs, p, c, m) && now.Some? ==>
            exists ch <- chs :: Contends(ch, p, c, m) && OfChange(ch) == now.value)
      && cl0 <= m
  {
    hide MergeRow, Apply, Deliver, MaxCl, ColAt, Traced, Undisturbed;
    var cl0 := CausalLength(MetaAt(db, p));
    var m := MaxCl(chs, p, cl0);
    assert AllWellFormed(s, d);
    SameMaxCl(d, chs, p, cl0);
    MaxClIsMax(chs, p, cl0);
    if m % 2 == 0 {
      DeliveredDead(s, db, d, v, p, c);
    } else {
      DeliverColumn(s, db, d, v, p, c);
      if cl0 < m {
        DeliverTraced(s, db, d, v, chs, p, c);
        if OnlyColumn(chs, p, c, m) { NoRemnant(s, db, d, v, p, c); }
      }
    }
  }

  lemma OrderFreeIsSufficient(
    s: Schema, db: Db, chs: seq<Change>, p: Pk, c: Name, d1: seq<Change>, v1: seq<Turn>, d2: seq<Change>, v2: seq<Turn>)
    requires SchemaOk(s) && Inv(s, db) && AllWellFormed(s, chs) && c in s.cols && OrderFreeWhen(chs, db, p, c)
    requires Delivery(s, db, d1, v1, chs) && Delivery(s, db, d2, v2, chs)
    ensures Agree(Outcome(s, db, d1, v1, p, c), Outcome(s, db, d2, v2, p, c))
  {
    hide MaxCl, ColAt, Outcome, Settled, Traced, Covered;
    var cl0, was := CausalLength(MetaAt(db, p)), ColAt(RowAt(db, p), c);
    var m := MaxCl(chs, p, cl0);
    OutcomeFacts(s, db, d1, v1, chs, p, c);
    OutcomeFacts(s, db, d2, v2, chs, p, c);
    var x, y := Outcome(s, db, d1, v1, p, c), Outcome(s, db, d2, v2, p, c);
    if m % 2 == 0 {
    } else if cl0 == m || OwnChange(chs, p, c, m) {
      SettledAgree(chs, chs, p, c, m, cl0, was, x, cl0, was, y);
    } else if OnlyColumn(chs, p, c, m) {
      BothContenders(chs, p, c, m, cl0, was, x, y);
    } else {
      CoveredAgree(chs, p, c, cl0, m, was, x, y);
    }
  }

  lemma BothContenders(chs: seq<Change>, p: Pk, c: Name, m: int, cl0: int, was: Option<Clocked>, x: Option<Clocked>,
                       y: Option<Clocked>)
    requires Settled(chs, p, c, m, cl0, was, x) && Settled(chs, p, c, m, cl0, was, y)
    requires x.Some? ==> exists ch <- chs :: Contends(ch, p, c, m) && OfChange(ch) == x.value
    requires y.Some? ==> exists ch <- chs :: Contends(ch, p, c, m) && OfChange(ch) == y.value
    ensures Agree(x, y)
  {
    if x.Some? && y.Some? { LeqLaws(x.value, y.value, x.value); }
  }

  // ---------- the condition is needed ----------

  /** What remains of a column when a change begins a new life. */
  function Remnant(w: Change, c: Name, was: Option<Clocked>): Option<Clocked> {
    if w.name == c then Some(OfChange(w)) else if was.Some? then Some(Clocked(0, was.value.value)) else None
  }

  /** Deliver `pre`, begin the winning life with `w`, and then deliver everything. */
  lemma LifeBegins(s: Schema, db: Db, pre: seq<Change>, w: Change, chs: seq<Change>, p: Pk, c: Name)
    returns (d: seq<Change>, v: seq<Turn>)
    requires SchemaOk(s) && Inv(s, db) && AllWellFormed(s, chs)
    requires c in s.cols && w in chs && forall ch <- pre :: ch in chs
    requires w.pk == p && w.cl == MaxCl(chs, p, CausalLength(MetaAt(db, p))) && w.cl % 2 == 1
    requires MaxCl(pre, p, CausalLength(MetaAt(db, p))) < w.cl
    ensures Delivery(s, db, d, v, chs)
    ensures Settled(chs, p, c, w.cl, w.cl, Remnant(w, c, Outcome(s, db, pre, Plain(pre), p, c)),
                    Outcome(s, db, d, v, p, c))
  {
    hide MergeRow, Apply, WellFormed, ColAt, RowInv, Settled;
    var cl0 := CausalLength(MetaAt(db, p));
    var base := Deliver(s, db, pre, Plain(pre));
    assert AllWellFormed(s, pre) && AllWellFormed(s, [w]);
    PlainKeeps(s, db, pre, p);
    assert RowInv(s, RowAt(base, p)) && RowAt(base, p).meta == MetaAt(base, p);
    assert Plain([w]) == [AT_ZERO];
    var once := Deliver(s, base, [w], [AT_ZERO]);
    assert [w][..0] == [] && [AT_ZERO][..0] == [];
    PlainKeeps(s, base, [w], p);
    DeliverStep(s, base, [w], [AT_ZERO], p);
    UnmetUndisturbed(s, once, chs, Plain(chs));
    UnmetUndisturbed(s, db, pre + ([w] + chs), Plain(pre) + ([AT_ZERO] + Plain(chs)));
    MergeColumn(s, RowAt(base, p), w, 0, c);
    MaxClIsMax(chs, p, cl0);
    MaxClIsMax(chs, p, w.cl);
    DeliverColumn(s, once, chs, Plain(chs), p, c);
    DeliverAppend(s, base, [w], [AT_ZERO], chs, Plain(chs));
    DeliverAppend(s, db, pre, Plain(pre), [w] + chs, [AT_ZERO] + Plain(chs));
    d, v := pre + ([w] + chs), Plain(pre) + ([AT_ZERO] + Plain(chs));
  }

  /** Turns that meet nothing. */
  function Plain(chs: seq<Change>): (v: seq<Turn>)
    ensures |v| == |chs| && forall t <- v :: t.met == UNMET
  {
    seq(|chs|, _ => AT_ZERO)
  }

  lemma PlainKeeps(s: Schema, db: Db, chs: seq<Change>, p: Pk)
    requires SchemaOk(s) && Inv(s, db) && AllWellFormed(s, chs)
    ensures Undisturbed(s, db, chs, Plain(chs)) && Inv(s, Deliver(s, db, chs, Plain(chs)))
    ensures CausalLength(MetaAt(Deliver(s, db, chs, Plain(chs)), p)) == MaxCl(chs, p, CausalLength(MetaAt(db, p)))
  {
    hide *;
    UnmetUndisturbed(s, db, chs, Plain(chs));
    UndisturbedLosesNone(s, db, chs, Plain(chs));
    DeliverKeeps(s, db, chs, Plain(chs));
    InvMeta(s, db);
    DeliverCl(s, db, chs, Plain(chs), p);
  }

  lemma NothingDelivered(s: Schema, db: Db, p: Pk, c: Name)
    ensures Outcome(s, db, [], Plain([]), p, c) == ColAt(RowAt(db, p), c)
  {
  }

  /** One change alone. */
  lemma OneDelivered(s: Schema, db: Db, ch: Change, p: Pk, c: Name)
    requires SchemaOk(s) && Inv(s, db) && WellFormed(s, ch) && c in s.cols && ch.pk == p
    ensures var cl0 := CausalLength(MetaAt(db, p));
      && Outcome(s, db, [ch], Plain([ch]), p, c) == Merged(ch, c, cl0, ColAt(RowAt(db, p), c))
      && MaxCl([ch], p, cl0) == if ch.cl > cl0 then ch.cl else cl0
  {
    hide MergeRow, Apply, ColAt, RowInv, WellFormed;
    assert [ch][..0] == [] && Plain([ch])[..0] == [];
    UnmetUndisturbed(s, db, [ch], Plain([ch]));
    DeliverStep(s, db, [ch], Plain([ch]), p);
    MergeColumn(s, RowAt(db, p), ch, 0, c);
  }

  /** Every candidate can be what the winning life finds. */
  lemma CandidateReached(s: Schema, db: Db, chs: seq<Change>, p: Pk, c: Name, value: Value) returns (pre: seq<Change>)
    requires SchemaOk(s) && Inv(s, db) && AllWellFormed(s, chs) && c in s.cols
    requires var cl0 := CausalLength(MetaAt(db, p)); cl0 < MaxCl(chs, p, cl0)
    requires var cl0 := CausalLength(MetaAt(db, p));
      Candidate(chs, p, c, cl0, MaxCl(chs, p, cl0), ColAt(RowAt(db, p), c), value)
    ensures (forall ch <- pre :: ch in chs)
    ensures var cl0 := CausalLength(MetaAt(db, p)); MaxCl(pre, p, cl0) < MaxCl(chs, p, cl0)
    ensures var x := Outcome(s, db, pre, Plain(pre), p, c); x.Some? && x.value.value == value
  {
    hide MaxCl, ColAt, Outcome;
    var cl0, was := CausalLength(MetaAt(db, p)), ColAt(RowAt(db, p), c);
    var m := MaxCl(chs, p, cl0);
    if was.Some? && value == was.value.value {
      pre := [];
      NothingDelivered(s, db, p, c);
      NoChanges(p, cl0);
    } else {
      var ch :| ch in chs && Earlier(ch, p, c, cl0, m, was) && ch.value == value;
      pre := [ch];
      OneDelivered(s, db, ch, p, c);
      SchemaNames(s, c);
    }
  }

  lemma NoChanges(p: Pk, base: int)
    ensures MaxCl([], p, base) == base
  {
  }

  /** Two orders that differ, when the winning life writes the column. */
  lemma UncoveredContended(s: Schema, db: Db, chs: seq<Change>, p: Pk, c: Name, w: Change)
    requires SchemaOk(s) && Inv(s, db) && AllWellFormed(s, chs) && c in s.cols && w in chs && w.pk == p && w.name != c
    requires var cl0 := CausalLength(MetaAt(db, p)); w.cl == MaxCl(chs, p, cl0) > cl0 && w.cl % 2 == 1
    requires !OwnChange(chs, p, c, w.cl) && Contended(chs, p, c, w.cl)
    requires !Covered(chs, p, c, CausalLength(MetaAt(db, p)), w.cl, ColAt(RowAt(db, p), c))
    ensures !OrderFree(s, db, chs, p, c)
  {
    hide MaxCl, ColAt, Outcome, Settled, SameChanges;
    var cl0, was := CausalLength(MetaAt(db, p)), ColAt(RowAt(db, p), c);
    var value :| Candidate(chs, p, c, cl0, w.cl, was, value)
      && forall ch <- chs :: Contends(ch, p, c, w.cl) ==> Compare(value, ch.value) > 0;
    var k :| k in chs && Contends(k, p, c, w.cl);
    var pre := CandidateReached(s, db, chs, p, c, value);
    var d1, v1 := LifeBegins(s, db, pre, w, chs, p, c);
    NoChanges(p, cl0);
    var d2, v2 := LifeBegins(s, db, [], k, chs, p, c);
    var x, y := Outcome(s, db, d1, v1, p, c), Outcome(s, db, d2, v2, p, c);
    ShowsThrough(chs, p, c, w.cl, value, k, x, y);
    NotOrderFree(s, db, chs, p, c, d1, v1, d2, v2);
  }

  lemma ShowsThrough(chs: seq<Change>, p: Pk, c: Name, m: int, value: Value, k: Change, x: Option<Clocked>,
                     y: Option<Clocked>)
    requires k in chs && Contends(k, p, c, m) && !OwnChange(chs, p, c, m) && forall ch <- chs :: ch.colVersion >= 0
    requires forall ch <- chs :: Contends(ch, p, c, m) ==> Compare(value, ch.value) > 0
    requires Settled(chs, p, c, m, m, Some(Clocked(0, value)), x) && Settled(chs, p, c, m, m, Some(OfChange(k)), y)
    ensures !Agree(x, y)
  {
    var ch :| ch in chs && Contends(ch, p, c, m) && OfChange(ch) == y.value;
    assert ch.colVersion == 0;
    CompareLaws(value, x.value.value);
    AboveIsNotSeen(x.value.value, value, y.value.value);
  }

  lemma AboveIsNotSeen(a: Value, b: Value, c: Value)
    requires Compare(a, b) >= 0 && Compare(b, c) > 0
    ensures Seen(a) != Seen(c)
  {
    CompareTransitive(a, b, c);
    CompareLaws(a, c);
  }

  lemma NotOrderFree(s: Schema, db: Db, chs: seq<Change>, p: Pk, c: Name, d1: seq<Change>, v1: seq<Turn>,
                     d2: seq<Change>, v2: seq<Turn>)
    requires Delivery(s, db, d1, v1, chs) && Delivery(s, db, d2, v2, chs)
    requires !Agree(Outcome(s, db, d1, v1, p, c), Outcome(s, db, d2, v2, p, c))
    ensures !OrderFree(s, db, chs, p, c)
  {
    hide Outcome, Agree;
  }

  /** Without a contender the winning life leaves the remnant it found. */
  lemma Uncontended(chs: seq<Change>, p: Pk, c: Name, m: int, was: Option<Clocked>, now: Option<Clocked>)
    requires Settled(chs, p, c, m, m, was, now) && !Contended(chs, p, c, m)
    ensures now == was
  {
  }

  /** Two orders that differ, when it does not. */
  lemma UncoveredUncontended(s: Schema, db: Db, chs: seq<Change>, p: Pk, c: Name, w: Change)
    requires SchemaOk(s) && Inv(s, db) && AllWellFormed(s, chs) && c in s.cols && w in chs && w.pk == p && w.name != c
    requires var cl0 := CausalLength(MetaAt(db, p)); w.cl == MaxCl(chs, p, cl0) > cl0 && w.cl % 2 == 1
    requires !Contended(chs, p, c, w.cl)
    requires !Covered(chs, p, c, CausalLength(MetaAt(db, p)), w.cl, ColAt(RowAt(db, p), c))
    ensures !OrderFree(s, db, chs, p, c)
  {
    hide MaxCl, ColAt, Outcome, Settled, SameChanges, Contended;
    var cl0, was := CausalLength(MetaAt(db, p)), ColAt(RowAt(db, p), c);
    NoChanges(p, cl0);
    NothingDelivered(s, db, p, c);
    var d1, v1 := LifeBegins(s, db, [], w, chs, p, c);
    Uncontended(chs, p, c, w.cl, Remnant(w, c, was), Outcome(s, db, d1, v1, p, c));
    var pre: seq<Change>;
    if was.Some? && !NeverGone(chs, p, cl0, w.cl) {
      var e :| e in chs && e.pk == p && cl0 < e.cl < w.cl && e.cl % 2 == 0;
      pre := [e];
      OneDelivered(s, db, e, p, c);
    } else {
      var value :| Candidate(chs, p, c, cl0, w.cl, was, value) && (was.Some? ==> Seen(value) != Seen(was.value.value));
      pre := CandidateReached(s, db, chs, p, c, value);
    }
    var d2, v2 := LifeBegins(s, db, pre, w, chs, p, c);
    Uncontended(chs, p, c, w.cl, Remnant(w, c, Outcome(s, db, pre, Plain(pre), p, c)), Outcome(s, db, d2, v2, p, c));
    NotOrderFree(s, db, chs, p, c, d1, v1, d2, v2);
  }

  /** From one state, the order of delivery does not matter to the column if and only if the condition holds. */
  lemma OrderFreeExactly(s: Schema, db: Db, chs: seq<Change>, p: Pk, c: Name)
    requires SchemaOk(s) && Inv(s, db) && AllWellFormed(s, chs) && c in s.cols
    ensures OrderFree(s, db, chs, p, c) <==> OrderFreeWhen(chs, db, p, c)
  {
    hide Outcome, Agree, Covered, ColAt, MaxCl, OwnChange;
    if OrderFreeWhen(chs, db, p, c) {
      forall d1, v1, d2, v2 | Delivery(s, db, d1, v1, chs) && Delivery(s, db, d2, v2, chs)
        ensures |v1| == |d1| && |v2| == |d2| && Agree(Outcome(s, db, d1, v1, p, c), Outcome(s, db, d2, v2, p, c))
      {
        OrderFreeIsSufficient(s, db, chs, p, c, d1, v1, d2, v2);
      }
    } else {
      var cl0 := CausalLength(MetaAt(db, p));
      var m := MaxCl(chs, p, cl0);
      MaxClIsMax(chs, p, cl0);
      var w :| w in chs && w.pk == p && w.cl == m && w.name != c;
      if Contended(chs, p, c, m) {
        UncoveredContended(s, db, chs, p, c, w);
      } else {
        UncoveredUncontended(s, db, chs, p, c, w);
      }
    }
  }

  /** The guard of the convergence theorem is one of the ways. */
  lemma DeterminedIsOrderFree(s: Schema, db: Db, chs: seq<Change>, p: Pk, c: Name)
    requires SchemaOk(s) && Inv(s, db) && AllWellFormed(s, chs) && c in s.cols && Determined(chs, db, p, c)
    ensures OrderFree(s, db, chs, p, c)
  {
    hide OrderFree, Determined;
    assert OrderFreeWhen(chs, db, p, c) by { DeterminedIsCondition(chs, db, p, c); }
    OrderFreeExactly(s, db, chs, p, c);
  }

  lemma DeterminedIsCondition(chs: seq<Change>, db: Db, p: Pk, c: Name)
    requires Determined(chs, db, p, c)
    ensures OrderFreeWhen(chs, db, p, c)
  {
    hide MaxCl;
  }
}
