/**
 Two replicas that send each other everything they hold, and what a primary-key change looks like
 from the other side.
 */
module AntiEntropy {
  import opened Values
  import opened Wrappers
  import opened Replica
  import opened Convergence

  /** `chs` lists exactly the changes `db` exports. */
  ghost predicate IsExport(db: Db, chs: seq<Change>) {
    forall ch :: ch in chs <==> Exports(db, ch)
  }

  /** No stored value is the text that marks a restricted one. */
  ghost predicate Unrestricted(db: Db) {
    forall p, c {:trigger ColAt(RowAt(db, p), c)} ::
      ColAt(RowAt(db, p), c).Some? ==> ColAt(RowAt(db, p), c).value.value != RLS_RESTRICTED
  }

  lemma ExportOk(s: Schema, db: Db, chs: seq<Change>)
    requires SchemaOk(s) && Inv(s, db) && IsExport(db, chs)
    ensures AllWellFormed(s, chs)
  {
    hide WellFormed, Exports, Inv;
    forall ch | ch in chs ensures WellFormed(s, ch) { ExportsWellFormed(s, db, ch); }
  }

  /** An export tells of each row its causal length and nothing else. */
  lemma ExportCl(s: Schema, db: Db, chs: seq<Change>, p: Pk, base: int)
    requires SchemaOk(s) && Inv(s, db) && Unrestricted(db) && IsExport(db, chs)
    requires base >= 0
    ensures var cl := CausalLength(MetaAt(db, p)); MaxCl(chs, p, base) == if cl > base then cl else base
  {
    hide MaxCl;
    var row := RowAt(db, p);
    assert RowInv(s, row) && row.meta == MetaAt(db, p);
    MaxClIsMax(chs, p, base);
    if row.meta != map[] {
      var n :| n in row.meta && (SENTINEL in row.meta ==> n == SENTINEL);
      assert n != SENTINEL ==> ColAt(row, n).Some?;
      ExportsWellFormedAt(s, db, p, n);
    }
    forall ch | ch in chs && ch.pk == p ensures ch.cl == CausalLength(row.meta) {
      ExportsWellFormed(s, db, ch);
    }
  }

  lemma ExportsWellFormedAt(s: Schema, db: Db, p: Pk, n: Name)
    requires SchemaOk(s) && Inv(s, db) && n in MetaAt(db, p)
    requires n != SENTINEL ==> ColAt(RowAt(db, p), n).Some? && ColAt(RowAt(db, p), n).value.value != RLS_RESTRICTED
    ensures var ch := ChangeOf(p, RowAt(db, p), n);
      Exports(db, ch) && ch.pk == p && ch.name == n && ch.cl == CausalLength(MetaAt(db, p))
      && (n != SENTINEL ==> OfChange(ch) == ColAt(RowAt(db, p), n).value)
  {
    assert RowInv(s, RowAt(db, p));
  }

  /** The contenders an export brings to a column are the column's own entry, if it has one. */
  lemma ExportContends(s: Schema, db: Db, chs: seq<Change>, p: Pk, c: Name)
    requires SchemaOk(s) && Inv(s, db) && Unrestricted(db) && IsExport(db, chs) && c in s.cols
    ensures var own, cl := ColAt(RowAt(db, p), c), CausalLength(MetaAt(db, p));
      && (forall ch <- chs :: ch.pk == p && ch.name == c ==> ch.cl == cl && own == Some(OfChange(ch)))
      && (own.Some? ==> exists ch <- chs :: Contends(ch, p, c, cl) && OfChange(ch) == own.value)
  {
    hide SchemaOk;
    assert c != SENTINEL by { SchemaNames(s, c); }
    var own := ColAt(RowAt(db, p), c);
    forall ch | ch in chs && ch.pk == p && ch.name == c
      ensures ch.cl == CausalLength(MetaAt(db, p)) && own == Some(OfChange(ch))
    {
      ExportsWellFormed(s, db, ch);
      ExportedColumn(s, db, ch);
    }
    if own.Some? { ExportsWellFormedAt(s, db, p, c); }
  }

  lemma ExportedColumn(s: Schema, db: Db, ch: Change)
    requires Inv(s, db) && Exports(db, ch) && ch.name != SENTINEL
    ensures ColAt(RowAt(db, ch.pk), ch.name) == Some(OfChange(ch))
  {
    assert RowInv(s, RowAt(db, ch.pk));
  }

  /** The side that wins row `p` holds column `c` with a version of its own. */
  ghost predicate Carried(x: Db, y: Db, p: Pk, c: Name) {
    var clx, cly := CausalLength(MetaAt(x, p)), CausalLength(MetaAt(y, p));
    var cx, cy := ColAt(RowAt(x, p), c), ColAt(RowAt(y, p), c);
    && (clx > cly ==> cx.Some? && cx.value.version >= 1)
    && (cly > clx ==> cy.Some? && cy.value.version >= 1)
  }

  /**
   After each of two replicas merged everything the other exported, in any order: every row has the
   greater of the two causal lengths on both sides. If no merge lost a row, it is present on both or on
   neither. If none met another uniqueness constraint, every column the winning side carries (every
   column at all when neither side is ahead) agrees.
   */
  lemma ExchangeConverges(
    sx: Schema, x: Db, ex: seq<Change>, sy: Schema, y: Db, ey: seq<Change>, vx: seq<Turn>, vy: seq<Turn>, p: Pk)
    requires SchemaOk(sx) && SchemaOk(sy) && sx.cols == sy.cols && Inv(sx, x) && Inv(sy, y)
    requires Unrestricted(x) && Unrestricted(y) && IsExport(x, ex) && IsExport(y, ey)
    requires |vx| == |ey| && |vy| == |ex|
    ensures var x', y' := Deliver(sx, x, ey, vx), Deliver(sy, y, ex, vy);
      var clx, cly := CausalLength(MetaAt(x, p)), CausalLength(MetaAt(y, p));
      && CausalLength(MetaAt(x', p)) == CausalLength(MetaAt(y', p)) == (if clx > cly then clx else cly)
      && (LosesNone(sx, x, ey, vx) && LosesNone(sy, y, ex, vy) ==> (p in x'.table <==> p in y'.table))
      && (Undisturbed(sx, x, ey, vx) && Undisturbed(sy, y, ex, vy) ==>
            forall c <- sx.cols :: Carried(x, y, p, c) ==> Agree(ColAt(RowAt(x', p), c), ColAt(RowAt(y', p), c)))
  {
    hide *;
    var x', y' := Deliver(sx, x, ey, vx), Deliver(sy, y, ex, vy);
    ExchangeCl(sx, x, ey, vx, sy, y, p);
    ExchangeCl(sy, y, ex, vy, sx, x, p);
    if LosesNone(sx, x, ey, vx) && LosesNone(sy, y, ex, vy) {
      ExchangePresence(sx, x, ey, vx, sy, y, p);
      ExchangePresence(sy, y, ex, vy, sx, x, p);
    }
    if Undisturbed(sx, x, ey, vx) && Undisturbed(sy, y, ex, vy) {
      forall c | c in sx.cols && Carried(x, y, p, c) ensures Agree(ColAt(RowAt(x', p), c), ColAt(RowAt(y', p), c)) {
        ExchangeColumn(sx, x, ex, sy, y, ey, vx, vy, p, c);
      }
    }
  }

  lemma ExchangeCl(sx: Schema, x: Db, ey: seq<Change>, vx: seq<Turn>, sy: Schema, y: Db, p: Pk)
    requires SchemaOk(sx) && SchemaOk(sy) && sx.cols == sy.cols && Inv(sx, x) && Inv(sy, y)
    requires Unrestricted(y) && IsExport(y, ey) && |vx| == |ey|
    ensures var x' := Deliver(sx, x, ey, vx);
      var clx, cly := CausalLength(MetaAt(x, p)), CausalLength(MetaAt(y, p));
      && AllWellFormed(sx, ey)
      && clx >= 0
      && CausalLength(MetaAt(x', p)) == MaxCl(ey, p, clx) == (if clx > cly then clx else cly)
      && RowInv(sx, RowAt(x, p))
  {
    hide Apply, MergeRow, ColAt, Deliver, MaxCl, Unrestricted, IsExport;
    ExportOk(sy, y, ey);
    assert RowInv(sx, RowAt(x, p)) && RowAt(x, p).meta == MetaAt(x, p);
    ExportCl(sy, y, ey, p, CausalLength(MetaAt(x, p)));
    InvMeta(sx, x);
    DeliverCl(sx, x, ey, vx, p);
  }

  lemma ExchangePresence(sx: Schema, x: Db, ey: seq<Change>, vx: seq<Turn>, sy: Schema, y: Db, p: Pk)
    requires SchemaOk(sx) && SchemaOk(sy) && sx.cols == sy.cols && Inv(sx, x) && Inv(sy, y)
    requires Unrestricted(y) && IsExport(y, ey) && |vx| == |ey| && LosesNone(sx, x, ey, vx)
    ensures var x' := Deliver(sx, x, ey, vx);
      && RowInv(sx, RowAt(x', p))
      && (p in x'.table <==> CausalLength(MetaAt(x', p)) % 2 == 1)
  {
    hide Apply, MergeRow, ColAt, Deliver, MaxCl, Unrestricted, IsExport, LosesNone, AllWellFormed;
    ExchangeCl(sx, x, ey, vx, sy, y, p);
    DeliveredShape(sx, x, ey, vx, p);
  }

  lemma ExchangeColumn(
    sx: Schema, x: Db, ex: seq<Change>, sy: Schema, y: Db, ey: seq<Change>, vx: seq<Turn>, vy: seq<Turn>,
    p: Pk, c: Name)
    requires SchemaOk(sx) && SchemaOk(sy) && sx.cols == sy.cols && Inv(sx, x) && Inv(sy, y)
    requires Unrestricted(x) && Unrestricted(y) && IsExport(x, ex) && IsExport(y, ey)
    requires |vx| == |ey| && |vy| == |ex| && c in sx.cols && Carried(x, y, p, c)
    requires Undisturbed(sx, x, ey, vx) && Undisturbed(sy, y, ex, vy)
    ensures Agree(ColAt(RowAt(Deliver(sx, x, ey, vx), p), c), ColAt(RowAt(Deliver(sy, y, ex, vy), p), c))
  {
    hide Apply, MergeRow, ColAt, Deliver, MaxCl, Unrestricted, IsExport, Settled, RowInv, Agree, Undisturbed;
    var x', y' := Deliver(sx, x, ey, vx), Deliver(sy, y, ex, vy);
    var clx, cly := CausalLength(MetaAt(x, p)), CausalLength(MetaAt(y, p));
    var m := if clx > cly then clx else cly;
    ExchangeCl(sx, x, ey, vx, sy, y, p);
    ExchangeCl(sy, y, ex, vy, sx, x, p);
    if m % 2 == 0 {
      DeliveredDead(sx, x, ey, vx, p, c);
      DeliveredDead(sy, y, ex, vy, p, c);
      assert Agree(None, None) by { NoneAgrees(); }
    } else {
      DeliverColumn(sx, x, ey, vx, p, c);
      DeliverColumn(sy, y, ex, vy, p, c);
      ExportContends(sx, x, ex, p, c);
      ExportContends(sy, y, ey, p, c);
      BothSettled(ex, ey, p, c, m, clx, ColAt(RowAt(x, p), c), ColAt(RowAt(x', p), c),
                  cly, ColAt(RowAt(y, p), c), ColAt(RowAt(y', p), c));
    }
  }

  lemma NoneAgrees()
    ensures Agree(None, None)
  {
  }

  /** The two outcomes of an exchange dominate the same entries, and each is one of them. */
  lemma BothSettled(ex: seq<Change>, ey: seq<Change>, p: Pk, c: Name, m: int,
                    clx: int, cx: Option<Clocked>, nowX: Option<Clocked>,
                    cly: int, cy: Option<Clocked>, nowY: Option<Clocked>)
    requires m == if clx > cly then clx else cly
    requires Settled(ey, p, c, m, clx, cx, nowX) && Settled(ex, p, c, m, cly, cy, nowY)
    requires forall ch <- ex :: ch.pk == p && ch.name == c ==> ch.cl == clx && cx == Some(OfChange(ch))
    requires cx.Some? ==> exists ch <- ex :: Contends(ch, p, c, clx) && OfChange(ch) == cx.value
    requires forall ch <- ey :: ch.pk == p && ch.name == c ==> ch.cl == cly && cy == Some(OfChange(ch))
    requires cy.Some? ==> exists ch <- ey :: Contends(ch, p, c, cly) && OfChange(ch) == cy.value
    requires clx > cly ==> cx.Some? && cx.value.version >= 1
    requires cly > clx ==> cy.Some? && cy.value.version >= 1
    ensures Agree(nowX, nowY)
  {
    if nowX.Some? && nowY.Some? {
      LeqLaws(nowX.value, nowY.value, nowX.value);
    }
  }
}
