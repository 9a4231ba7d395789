/** Exactly when two replicas that merge each other's exports end up agreeing on a column, whatever the order. */
module ExchangeExact {
  import opened Values
  import opened Wrappers
  import opened Replica
  import opened Convergence
  import opened Determinism
  import opened DeliveryOrder
  import opened AntiEntropy

  /** However each side orders the other's export, the two end with the same column. */
  ghost predicate AlwaysAgree(sx: Schema, x: Db, ex: seq<Change>, sy: Schema, y: Db, ey: seq<Change>, p: Pk, c: Name) {
    forall dx, vx, dy, vy {:trigger Delivery(sx, x, dx, vx, ey), Delivery(sy, y, dy, vy, ex)} ::
      Delivery(sx, x, dx, vx, ey) && Delivery(sy, y, dy, vy, ex)
      ==> Agree(Outcome(sx, x, dx, vx, p, c), Outcome(sy, y, dy, vy, p, c))
  }

  /**
   What the side ahead shows in the column prevails over what the side behind shows: it has a version of its
   own, or nothing greater stands against it, or it is all there is to the row; and where the side ahead shows
   nothing, neither does the other.
   */
  ghost predicate Prevails(ahead: Db, behind: Db, p: Pk, c: Name) {
    var a, b := ColAt(RowAt(ahead, p), c), ColAt(RowAt(behind, p), c);
    if a.None? then b.None?
    else a.value.version >= 1 || b.None? || Compare(b.value.value, a.value.value) <= 0 || MetaAt(ahead, p).Keys <= {c}
  }

  ghost predicate AgreeWhen(x: Db, y: Db, p: Pk, c: Name) {
    var clx, cly := CausalLength(MetaAt(x, p)), CausalLength(MetaAt(y, p));
    && (clx > cly && clx % 2 == 1 ==> Prevails(x, y, p, c))
    && (cly > clx && cly % 2 == 1 ==> Prevails(y, x, p, c))
  }

  lemma SameExport(s: Schema, to: Db, db: Db, chs: seq<Change>, d: seq<Change>, v: seq<Turn>)
    requires IsExport(db, chs) && Delivery(s, to, d, v, chs)
    ensures IsExport(db, d) && |v| == |d| && Undisturbed(s, to, d, v)
  {
    hide Exports, Undisturbed;
  }

  /** An export says of a live row what its entries say, and no more. */
  lemma ExportOnly(s: Schema, db: Db, chs: seq<Change>, p: Pk, c: Name)
    requires SchemaOk(s) && Inv(s, db) && Unrestricted(db) && IsExport(db, chs) && CausalLength(MetaAt(db, p)) % 2 == 1
    ensures OnlyColumn(chs, p, c, CausalLength(MetaAt(db, p))) <==> MetaAt(db, p).Keys <= {c}
  {
    var row := RowAt(db, p);
    assert RowInv(s, row) && row.meta == MetaAt(db, p);
    if OnlyColumn(chs, p, c, CausalLength(row.meta)) {
      forall n | n in row.meta ensures n == c {
        assert n != SENTINEL ==> ColAt(row, n).Some?;
        ExportsWellFormedAt(s, db, p, n);
      }
    }
  }

  /** What merging an export leaves in a column, seen from either side. */
  lemma MergedExport(s: Schema, db: Db, sy: Schema, y: Db, d: seq<Change>, v: seq<Turn>, p: Pk, c: Name)
    requires SchemaOk(s) && SchemaOk(sy) && s.cols == sy.cols && Inv(s, db) && Inv(sy, y) && c in s.cols
    requires Unrestricted(y) && IsExport(y, d) && |v| == |d| && Undisturbed(s, db, d, v)
    ensures AllWellFormed(s, d) && Delivery(s, db, d, v, d)
    ensures var cl0, cl := CausalLength(MetaAt(db, p)), CausalLength(MetaAt(y, p));
      var m, was, now := if cl > cl0 then cl else cl0, ColAt(RowAt(db, p), c), Outcome(s, db, d, v, p, c);
      && MaxCl(d, p, cl0) == m
      && (m % 2 == 0 ==> now.None?)
      && (m % 2 == 1 ==> Settled(d, p, c, m, cl0, was, now))
      && (m % 2 == 1 && cl0 < m ==> Traced(d, p, c, cl0, m, was, m, now))
      && (m % 2 == 1 && cl0 < m && OnlyColumn(d, p, c, m) && now.Some? ==>
            exists ch <- d :: Contends(ch, p, c, m) && OfChange(ch) == now.value)
  {
    hide ColAt, MaxCl, Settled, Unrestricted, IsExport, Traced, RowInv, Outcome, OnlyColumn, Undisturbed;
    ExchangeCl(s, db, d, v, sy, y, p);
    OutcomeFacts(s, db, d, v, d, p, c);
  }

  /** The side ahead keeps its column: everything the other exports is of an earlier life. */
  lemma AheadKeeps(sx: Schema, x: Db, sy: Schema, y: Db, d: seq<Change>, v: seq<Turn>, p: Pk, c: Name)
    requires SchemaOk(sx) && SchemaOk(sy) && sx.cols == sy.cols && Inv(sx, x) && Inv(sy, y) && c in sx.cols
    requires Unrestricted(y) && IsExport(y, d) && |v| == |d| && Undisturbed(sx, x, d, v)
    requires CausalLength(MetaAt(x, p)) > CausalLength(MetaAt(y, p)) && CausalLength(MetaAt(x, p)) % 2 == 1
    ensures Outcome(sx, x, d, v, p, c) == ColAt(RowAt(x, p), c)
  {
    hide ColAt, MaxCl, Settled, Unrestricted, IsExport, Traced, Outcome, Delivery;
    MergedExport(sx, x, sy, y, d, v, p, c);
    ExportContends(sy, y, d, p, c);
    Uncontended(d, p, c, CausalLength(MetaAt(x, p)), ColAt(RowAt(x, p), c), Outcome(sx, x, d, v, p, c));
  }

  /** The side behind takes over a column that prevails. */
  lemma BehindTakes(sy: Schema, y: Db, sx: Schema, x: Db, d: seq<Change>, v: seq<Turn>, p: Pk, c: Name)
    requires SchemaOk(sx) && SchemaOk(sy) && sx.cols == sy.cols && Inv(sx, x) && Inv(sy, y) && c in sx.cols
    requires Unrestricted(x) && IsExport(x, d) && |v| == |d| && Prevails(x, y, p, c) && Undisturbed(sy, y, d, v)
    requires CausalLength(MetaAt(x, p)) > CausalLength(MetaAt(y, p)) && CausalLength(MetaAt(x, p)) % 2 == 1
    ensures Agree(ColAt(RowAt(x, p), c), Outcome(sy, y, d, v, p, c))
  {
    hide ColAt, MaxCl, Settled, Unrestricted, IsExport, Traced, Outcome, Delivery, OnlyColumn;
    MergedExport(sy, y, sx, x, d, v, p, c);
    ExportContends(sx, x, d, p, c);
    ExportOnly(sx, x, d, p, c);
    PrevailingOutcome(d, p, c, CausalLength(MetaAt(y, p)), CausalLength(MetaAt(x, p)), ColAt(RowAt(x, p), c),
                      ColAt(RowAt(y, p), c),
                      Outcome(sy, y, d, v, p, c), MetaAt(x, p).Keys <= {c});
  }

  lemma PrevailingOutcome(d: seq<Change>, p: Pk, c: Name, cl0: int, m: int, ahead: Option<Clocked>,
                          was: Option<Clocked>, now: Option<Clocked>, only: bool)
    requires cl0 < m && Settled(d, p, c, m, cl0, was, now) && Traced(d, p, c, cl0, m, was, m, now)
    requires forall ch <- d :: ch.pk == p && ch.name == c ==> ch.cl == m && ahead == Some(OfChange(ch))
    requires ahead.Some? ==> exists ch <- d :: Contends(ch, p, c, m) && OfChange(ch) == ahead.value
    requires only && now.Some? ==> exists ch <- d :: Contends(ch, p, c, m) && OfChange(ch) == now.value
    requires ahead.Some? ==> ahead.value.version >= 0
    requires if ahead.None? then was.None?
             else ahead.value.version >= 1 || was.None? || Compare(was.value.value, ahead.value.value) <= 0 || only
    ensures Agree(ahead, now)
  {
    if ahead.Some? && now.Some? && now != ahead {
      assert now.value == Clocked(0, was.value.value);
      LeqLaws(ahead.value, now.value, ahead.value);
    }
  }

  /** An order in which what the side behind showed survives, when the column does not prevail. */
  lemma BehindKeeps(sy: Schema, y: Db, sx: Schema, x: Db, ex: seq<Change>, p: Pk, c: Name)
    returns (d: seq<Change>, v: seq<Turn>)
    requires SchemaOk(sx) && SchemaOk(sy) && sx.cols == sy.cols && Inv(sx, x) && Inv(sy, y) && c in sx.cols
    requires Unrestricted(x) && IsExport(x, ex) && !Prevails(x, y, p, c)
    requires CausalLength(MetaAt(x, p)) > CausalLength(MetaAt(y, p)) && CausalLength(MetaAt(x, p)) % 2 == 1
    ensures Delivery(sy, y, d, v, ex) && !Agree(ColAt(RowAt(x, p), c), Outcome(sy, y, d, v, p, c))
  {
    hide ColAt, MaxCl, Settled, Unrestricted, IsExport, Traced, Outcome, SameChanges, Undisturbed;
    var cly, m := CausalLength(MetaAt(y, p)), CausalLength(MetaAt(x, p));
    UnmetUndisturbed(sy, y, ex, Plain(ex));
    MergedExport(sy, y, sx, x, ex, Plain(ex), p, c);
    ExportContends(sx, x, ex, p, c);
    ExportOnly(sx, x, ex, p, c);
    MaxClIsMax(ex, p, cly);
    var w :| w in ex && w.pk == p && w.cl == m && w.name != c;
    NoChanges(p, cly);
    NothingDelivered(sy, y, p, c);
    d, v := LifeBegins(sy, y, [], w, ex, p, c);
    var now := Outcome(sy, y, d, v, p, c);
    Survives(ex, p, c, m, ColAt(RowAt(x, p), c), ColAt(RowAt(y, p), c), now);
  }

  lemma Survives(ex: seq<Change>, p: Pk, c: Name, m: int, ahead: Option<Clocked>, was: Option<Clocked>,
                 now: Option<Clocked>)
    requires was.Some? && Settled(ex, p, c, m, m, Some(Clocked(0, was.value.value)), now)
    requires forall ch <- ex :: ch.pk == p && ch.name == c ==> ahead == Some(OfChange(ch))
    requires ahead.Some? ==> ahead.value.version < 1 && Compare(was.value.value, ahead.value.value) > 0
    ensures !Agree(ahead, now)
  {
    if ahead.Some? && now.value.version == 0 {
      CompareLaws(was.value.value, now.value.value);
      AboveIsNotSeen(now.value.value, was.value.value, ahead.value.value);
    }
  }

  /** Whatever the order, the exchange agrees on the column if and only if the side ahead, if there is one, prevails. */
  lemma ExchangeAgreesExactly(sx: Schema, x: Db, ex: seq<Change>, sy: Schema, y: Db, ey: seq<Change>, p: Pk, c: Name)
    requires SchemaOk(sx) && SchemaOk(sy) && sx.cols == sy.cols && Inv(sx, x) && Inv(sy, y) && c in sx.cols
    requires Unrestricted(x) && Unrestricted(y) && IsExport(x, ex) && IsExport(y, ey)
    ensures AlwaysAgree(sx, x, ex, sy, y, ey, p, c) <==> AgreeWhen(x, y, p, c)
  {
    hide ColAt, Unrestricted, IsExport, Outcome, Agree, Prevails, SameChanges, Undisturbed;
    var clx, cly := CausalLength(MetaAt(x, p)), CausalLength(MetaAt(y, p));
    if AgreeWhen(x, y, p, c) {
      forall dx, vx, dy, vy | Delivery(sx, x, dx, vx, ey) && Delivery(sy, y, dy, vy, ex)
        ensures |vx| == |dx| && |vy| == |dy| && Agree(Outcome(sx, x, dx, vx, p, c), Outcome(sy, y, dy, vy, p, c))
      {
        SameExport(sx, x, y, ey, dx, vx);
        SameExport(sy, y, x, ex, dy, vy);
        PrevailingExchange(sx, x, sy, y, dx, vx, dy, vy, p, c);
      }
    } else if clx > cly {
      SomeOrderDiffers(sx, x, ex, sy, y, ey, p, c);
    } else {
      SomeOrderDiffers(sy, y, ey, sx, x, ex, p, c);
      Turned(sx, x, ex, sy, y, ey, p, c);
    }
  }

  lemma AgreeSymmetric(a: Option<Clocked>, b: Option<Clocked>)
    ensures Agree(a, b) <==> Agree(b, a)
  {
  }

  lemma Turned(sx: Schema, x: Db, ex: seq<Change>, sy: Schema, y: Db, ey: seq<Change>, p: Pk, c: Name)
    ensures AlwaysAgree(sx, x, ex, sy, y, ey, p, c) ==> AlwaysAgree(sy, y, ey, sx, x, ex, p, c)
  {
    hide Outcome, Agree, SameChanges, Undisturbed;
    if AlwaysAgree(sx, x, ex, sy, y, ey, p, c) {
      forall dy, vy, dx, vx | Delivery(sy, y, dy, vy, ex) && Delivery(sx, x, dx, vx, ey)
        ensures |vx| == |dx| && |vy| == |dy| && Agree(Outcome(sy, y, dy, vy, p, c), Outcome(sx, x, dx, vx, p, c))
      {
        AgreeSymmetric(Outcome(sy, y, dy, vy, p, c), Outcome(sx, x, dx, vx, p, c));
      }
    }
  }

  lemma SomeOrderDiffers(sx: Schema, x: Db, ex: seq<Change>, sy: Schema, y: Db, ey: seq<Change>, p: Pk, c: Name)
    requires SchemaOk(sx) && SchemaOk(sy) && sx.cols == sy.cols && Inv(sx, x) && Inv(sy, y) && c in sx.cols
    requires Unrestricted(x) && Unrestricted(y) && IsExport(x, ex) && IsExport(y, ey) && !Prevails(x, y, p, c)
    requires CausalLength(MetaAt(x, p)) > CausalLength(MetaAt(y, p)) && CausalLength(MetaAt(x, p)) % 2 == 1
    ensures !AlwaysAgree(sx, x, ex, sy, y, ey, p, c)
  {
    hide ColAt, Unrestricted, IsExport, Outcome, Agree, Prevails, SameChanges, Undisturbed;
    var d, v := BehindKeeps(sy, y, sx, x, ex, p, c);
    UnmetUndisturbed(sx, x, ey, Plain(ey));
    AheadKeeps(sx, x, sy, y, ey, Plain(ey), p, c);
    assert Delivery(sx, x, ey, Plain(ey), ey) by { SameItself(ey); }
  }

  lemma SameItself(chs: seq<Change>)
    ensures SameChanges(chs, chs)
  {
  }

  lemma PrevailingExchange(sx: Schema, x: Db, sy: Schema, y: Db, dx: seq<Change>, vx: seq<Turn>, dy: seq<Change>,
                           vy: seq<Turn>, p: Pk, c: Name)
    requires SchemaOk(sx) && SchemaOk(sy) && sx.cols == sy.cols && Inv(sx, x) && Inv(sy, y) && c in sx.cols
    requires Unrestricted(x) && Unrestricted(y) && IsExport(x, dy) && IsExport(y, dx) && |vx| == |dx| && |vy| == |dy|
    requires AgreeWhen(x, y, p, c) && Undisturbed(sx, x, dx, vx) && Undisturbed(sy, y, dy, vy)
    ensures Agree(Outcome(sx, x, dx, vx, p, c), Outcome(sy, y, dy, vy, p, c))
  {
    hide ColAt, Unrestricted, IsExport, Agree, Prevails, MaxCl, Settled, Traced, Deliver, Delivery, OnlyColumn;
    hide Undisturbed;
    var clx, cly := CausalLength(MetaAt(x, p)), CausalLength(MetaAt(y, p));
    var m := if clx > cly then clx else cly;
    if m % 2 == 0 {
      MergedExport(sx, x, sy, y, dx, vx, p, c);
      MergedExport(sy, y, sx, x, dy, vy, p, c);
      NoneAgrees();
    } else if clx == cly {
      ExchangeColumn(sx, x, dy, sy, y, dx, vx, vy, p, c);
    } else if clx > cly {
      AheadKeeps(sx, x, sy, y, dx, vx, p, c);
      BehindTakes(sy, y, sx, x, dy, vy, p, c);
    } else {
      AheadKeeps(sy, y, sx, x, dy, vy, p, c);
      BehindTakes(sx, x, sy, y, dx, vx, p, c);
      AgreeSymmetric(Outcome(sx, x, dx, vx, p, c), Outcome(sy, y, dy, vy, p, c));
    }
  }
}
