/**
 From one replica's tables to another's: exported changes become payload rows, travel as a payload, and
 are merged as the same changes at the other end.
 */
module Sync {
  import opened Values
  import opened Wrappers
  import opened Replica
  import Convergence
  import AntiEntropy
  import PkCodec
  import Payload
  import Lz4Greedy

  const NCOLS: nat := 9

  predicate IsInt64(i: int) {
    -0x8000_0000_0000_0000 <= i < 0x8000_0000_0000_0000
  }

  /** A change whose integers fit 64 bits and whose texts and blobs fit SQLite's limit. */
  predicate Storable(ch: Change) {
    && IsInt64(ch.colVersion) && IsInt64(ch.dbVersion) && IsInt64(ch.cl) && IsInt64(ch.seqNo)
    && |ch.pk| < Payload.INT32_RANGE && |ch.name| < Payload.INT32_RANGE && |ch.site| < Payload.INT32_RANGE
    && PkCodec.Storable(ch.value)
  }

  /** The nine columns of cloudsync_changes, in order. */
  function TupleOf(tbl: Bytes, ch: Change): Payload.Tuple
    requires Storable(ch)
  {
    [Text(tbl), Blob(ch.pk), Text(ch.name), ch.value, Integer(ch.colVersion), Integer(ch.dbVersion),
     Blob(ch.site), Integer(ch.cl), Integer(ch.seqNo)]
  }

  /** What an insert into cloudsync_changes takes from its nine values; no name means the sentinel. */
  function ChangeOfTuple(tbl: Bytes, row: Payload.Tuple): Option<Change> {
    if |row| == NCOLS && row[0] == Text(tbl) && row[1].Blob? && (row[2].Text? || row[2].Null?) && row[4].Integer?
       && row[5].Integer? && row[6].Blob? && row[7].Integer? && row[8].Integer?
    then
      var name := if row[2].Null? then SENTINEL else row[2].text;
      Some(Change(row[1].blob, name, row[3], row[4].i, row[5].i, row[6].blob, row[7].i, row[8].i))
    else None
  }

  lemma TupleRoundTrip(tbl: Bytes, ch: Change)
    requires Storable(ch)
    ensures ChangeOfTuple(tbl, TupleOf(tbl, ch)) == Some(ch)
  {
  }

  /**
   What travels for a change: the encodings of the table's name, key, column, value, column version, db_version,
   site, causal length and sequence number, in this order.
   */
  lemma EncodedRow(tbl: Bytes, ch: Change)
    requires Storable(ch)
    ensures PkCodec.Encode(TupleOf(tbl, ch)) ==
      PkCodec.EncodeValue(Text(tbl)) + PkCodec.EncodeValue(Blob(ch.pk)) + PkCodec.EncodeValue(Text(ch.name))
      + PkCodec.EncodeValue(ch.value) + PkCodec.EncodeValue(Integer(ch.colVersion))
      + PkCodec.EncodeValue(Integer(ch.dbVersion)) + PkCodec.EncodeValue(Blob(ch.site))
      + PkCodec.EncodeValue(Integer(ch.cl)) + PkCodec.EncodeValue(Integer(ch.seqNo))
  {
    hide PkCodec.EncodeValue;
    assert PkCodec.Encode([]) == [];
    var a := [Text(tbl), Blob(ch.pk), Text(ch.name)];
    var b := [ch.value, Integer(ch.colVersion), Integer(ch.dbVersion)];
    var c := [Blob(ch.site), Integer(ch.cl), Integer(ch.seqNo)];
    EncodeThree(a[0], a[1], a[2], b + c);
    EncodeThree(b[0], b[1], b[2], c);
    EncodeThree(c[0], c[1], c[2], []);
    hide PkCodec.Encode;
    assert TupleOf(tbl, ch) == a + (b + c) && c + [] == c;
  }

  lemma EncodeThree(x: Value, y: Value, z: Value, rest: seq<Value>)
    ensures PkCodec.Encode([x, y, z] + rest)
      == PkCodec.EncodeValue(x) + PkCodec.EncodeValue(y) + PkCodec.EncodeValue(z) + PkCodec.Encode(rest)
  {
    hide PkCodec.EncodeValue;
    var vs := [x, y, z] + rest;
    assert vs[1..] == [y, z] + rest && vs[1..][1..] == [z] + rest && vs[1..][1..][1..] == rest;
    assert PkCodec.Encode([z] + rest) == PkCodec.EncodeValue(z) + PkCodec.Encode(rest);
    assert PkCodec.Encode([y, z] + rest) == PkCodec.EncodeValue(y) + PkCodec.Encode([z] + rest);
  }

  /** One change of nine different values: column version 2 in the fifth place, db_version 10 in the sixth. */
  lemma ExampleRow()
    ensures PkCodec.Encode(TupleOf([116], Change([1], [99], Integer(7), 2, 10, [9], 3, 4)))
      == [11, 1, 116] + [12, 1, 1] + [11, 1, 99] + [9, 7] + [9, 2] + [9, 10] + [12, 1, 9] + [9, 3] + [9, 4]
  {
    EncodedRow([116], Change([1], [99], Integer(7), 2, 10, [9], 3, 4));
    OneByte(116);
    OneByte(1);
    OneByte(99);
    OneByte(9);
    OneByte(7);
    OneByte(2);
    OneByte(10);
    OneByte(3);
    OneByte(4);
    hide PkCodec.EncodeValue, PkCodec.Encode;
  }

  lemma OneByte(x: Byte)
    requires x < 128
    ensures PkCodec.EncodeValue(Text([x])) == [11, 1, x] && PkCodec.EncodeValue(Blob([x])) == [12, 1, x]
    ensures PkCodec.EncodeValue(Integer(x)) == [9, x]
  {
    assert PkCodec.BigEndian(1, 1) == [1] && PkCodec.BigEndian(x, 1) == [x];
    assert PkCodec.NBytesNeeded(x) == 1 && PkCodec.NBytesNeeded(1) == 1;
  }

  /** The row that a peer makes a change of, place by place; a NULL in the third is the sentinel. */
  lemma ReadRow(tbl: Bytes, pk: Bytes, name: Value, value: Value, col: Int64, dv: Int64, site: Bytes, cl: Int64,
                q: Int64)
    requires name.Text? || name.Null?
    ensures ChangeOfTuple(tbl, [Text(tbl), Blob(pk), name, value, Integer(col), Integer(dv), Blob(site), Integer(cl),
                                Integer(q)])
      == Some(Change(pk, if name.Null? then SENTINEL else name.text, value, col, dv, site, cl, q))
  {
  }

  lemma TupleStorable(tbl: Bytes, ch: Change)
    requires Storable(ch) && |tbl| < Payload.INT32_RANGE
    ensures |TupleOf(tbl, ch)| == NCOLS && PkCodec.AllStorable(TupleOf(tbl, ch))
  {
  }

  predicate AllStorable(chs: seq<Change>) {
    forall ch :: ch in chs ==> Storable(ch)
  }

  function TuplesOf(tbl: Bytes, chs: seq<Change>): (rows: seq<Payload.Tuple>)
    requires AllStorable(chs)
    ensures |rows| == |chs| && forall i :: 0 <= i < |chs| ==> rows[i] == TupleOf(tbl, chs[i])
  {
    seq(|chs|, i requires 0 <= i < |chs| => TupleOf(tbl, chs[i]))
  }

  /** What the payload functions ask for: the first row leaves room for the header, and everything fits a signed int. */
  ghost predicate Shippable(tbl: Bytes, chs: seq<Change>, hash: Bytes -> nat) {
    && AllStorable(chs) && |tbl| < Payload.INT32_RANGE
    && (chs != [] ==> |PkCodec.Encode(TupleOf(tbl, chs[0]))| <= Payload.MINBUF_SIZE - Payload.HEADER_SIZE)
    && (var size := |Payload.EncodeRows(TuplesOf(tbl, chs))|;
        && Payload.HEADER_SIZE + size < Payload.INT32_RANGE
        && Lz4Greedy.HashFits(hash, Lz4Greedy.TableSize(Lz4Greedy.TableFor(size))))
  }

  /** The aggregate over all exported changes, a row at a time. */
  method Pack(tbl: Bytes, chs: seq<Change>, schemaHash: nat, hash: Bytes -> nat) returns (blob: Option<Bytes>)
    requires Shippable(tbl, chs, hash) && schemaHash < 0x1_0000_0000_0000_0000
    ensures blob.None? <==> chs == []
    ensures blob.Some? ==>
      Payload.IsPayload(blob.value, TuplesOf(tbl, chs), NCOLS, schemaHash) && |blob.value| < Payload.INT32_RANGE
  {
    hide PkCodec.Encode, PkCodec.AllStorable, TupleOf, Storable, Payload.IsPayload, Payload.EncodeRows, Payload.RowsOk;
    hide Lz4Greedy.HashFits;
    var payload := new Payload.PayloadBuffer();
    var i := 0;
    while i < |chs|
      invariant i <= |chs| && fresh(payload) && fresh(payload.buffer) && payload.Valid()
      invariant payload.rows == TuplesOf(tbl, chs)[..i] && (i > 0 ==> payload.ncols == NCOLS)
    {
      assert chs[i] in chs;
      TupleStorable(tbl, chs[i]);
      payload.EncodeStep(TupleOf(tbl, chs[i]));
      i := i + 1;
    }
    assert payload.rows == TuplesOf(tbl, chs);
    blob := payload.EncodeFinal(schemaHash, hash);
  }

  /** The rows of an applied payload, inserted into cloudsync_changes one after the other. */
  method Unpack(tbl: Bytes, blob: Bytes, known: set<nat>, ghost chs: seq<Change>, ghost schemaHash: nat)
    returns (got: seq<Change>)
    requires AllStorable(chs) && |tbl| < Payload.INT32_RANGE
    requires schemaHash in known && schemaHash < 0x1_0000_0000_0000_0000
    requires Payload.IsPayload(blob, TuplesOf(tbl, chs), NCOLS, schemaHash)
    requires |blob| < Payload.INT32_RANGE && |chs| < 0x1_0000_0000
    ensures got == chs
  {
    forall i | 0 <= i < |chs| ensures |TupleOf(tbl, chs[i])| == NCOLS && PkCodec.AllStorable(TupleOf(tbl, chs[i])) {
      assert chs[i] in chs;
      TupleStorable(tbl, chs[i]);
    }
    TuplesOk(TuplesOf(tbl, chs));
    hide Payload.IsPayload, Payload.RowsOk, TupleOf, Storable, Payload.OutcomeOk, PkCodec.AllStorable;
    ghost var rows := TuplesOf(tbl, chs);
    Payload.PayloadOpens(blob, rows, NCOLS, schemaHash, known, Payload.TooShort);
    var r := Payload.Apply(blob, known);
    Payload.PayloadOpens(blob, rows, NCOLS, schemaHash, known, r);
    got := FromTuples(tbl, r.rows, chs);
  }

  method FromTuples(tbl: Bytes, rows: seq<Payload.Tuple>, ghost chs: seq<Change>) returns (got: seq<Change>)
    requires AllStorable(chs) && rows == TuplesOf(tbl, chs)
    ensures got == chs
  {
    hide TupleOf, Storable, ChangeOfTuple, AllStorable;
    got := [];
    var i := 0;
    while i < |rows|
      invariant i <= |rows| && got == chs[..i]
    {
      StorableAt(chs, i);
      TupleRoundTrip(tbl, chs[i]);
      got := got + [ChangeOfTuple(tbl, rows[i]).value];
      i := i + 1;
    }
  }

  lemma StorableAt(chs: seq<Change>, i: nat)
    requires AllStorable(chs) && i < |chs|
    ensures Storable(chs[i])
  {
  }

  lemma TuplesOk(rows: seq<Payload.Tuple>)
    requires forall i :: 0 <= i < |rows| ==> |rows[i]| == NCOLS && PkCodec.AllStorable(rows[i])
    ensures Payload.RowsOk(rows, NCOLS)
  {
  }

  /** Sending: no change gives no payload, and nothing is applied then. */
  method Ship(tbl: Bytes, chs: seq<Change>, schemaHash: nat, hash: Bytes -> nat, known: set<nat>)
    returns (got: seq<Change>)
    requires Shippable(tbl, chs, hash) && schemaHash < 0x1_0000_0000_0000_0000 && schemaHash in known
    ensures got == chs
  {
    var blob := Pack(tbl, chs, schemaHash, hash);
    got := [];
    if blob.Some? {
      RowCount(tbl, chs);
      hide Shippable;
      got := Unpack(tbl, blob.value, known, chs, schemaHash);
    }
  }

  lemma RowCount(tbl: Bytes, chs: seq<Change>)
    requires AllStorable(chs) && |tbl| < Payload.INT32_RANGE
    requires |Payload.EncodeRows(TuplesOf(tbl, chs))| < Payload.INT32_RANGE
    ensures |chs| < Payload.INT32_RANGE
  {
    var rows := TuplesOf(tbl, chs);
    forall i | 0 <= i < |rows| ensures |rows[i]| == NCOLS && PkCodec.AllStorable(rows[i]) {
      assert chs[i] in chs;
      TupleStorable(tbl, chs[i]);
    }
    TuplesOk(rows);
    Payload.RowsTakeBytes(rows, NCOLS);
  }

  /**
   Two replicas send each other everything they export, as payloads, and apply what arrives: every row ends
   with the greater causal length on both sides; present on both or on neither if no merge lost a row; and
   agreeing on every column that the winning side carries if none met another uniqueness constraint.
   */
  method Exchange(tbl: Bytes, schemaHash: nat, hash: Bytes -> nat, known: set<nat>,
                  sx: Schema, ghost x: Db, ex: seq<Change>, sy: Schema, ghost y: Db, ey: seq<Change>,
                  ghost vx: seq<Convergence.Turn>, ghost vy: seq<Convergence.Turn>)
    returns (gotX: seq<Change>, gotY: seq<Change>)
    requires SchemaOk(sx) && SchemaOk(sy) && sx.cols == sy.cols && Inv(sx, x) && Inv(sy, y)
    requires AntiEntropy.Unrestricted(x) && AntiEntropy.Unrestricted(y)
    requires AntiEntropy.IsExport(x, ex) && AntiEntropy.IsExport(y, ey)
    requires |vx| == |ey| && |vy| == |ex|
    requires Shippable(tbl, ex, hash) && Shippable(tbl, ey, hash)
    requires schemaHash < 0x1_0000_0000_0000_0000 && schemaHash in known
    ensures |gotX| == |vx| && |gotY| == |vy|
    ensures forall p ::
      var x', y' := Convergence.Deliver(sx, x, gotX, vx), Convergence.Deliver(sy, y, gotY, vy);
      var clx, cly := CausalLength(MetaAt(x, p)), CausalLength(MetaAt(y, p));
      && CausalLength(MetaAt(x', p)) == CausalLength(MetaAt(y', p)) == (if clx > cly then clx else cly)
      && (Convergence.LosesNone(sx, x, gotX, vx) && Convergence.LosesNone(sy, y, gotY, vy) ==>
            (p in x'.table <==> p in y'.table))
      && (Convergence.Undisturbed(sx, x, gotX, vx) && Convergence.Undisturbed(sy, y, gotY, vy) ==>
            forall c <- sx.cols :: AntiEntropy.Carried(x, y, p, c) ==>
              Convergence.Agree(Convergence.ColAt(RowAt(x', p), c), Convergence.ColAt(RowAt(y', p), c)))
  {
    gotY := Ship(tbl, ex, schemaHash, hash, known);
    gotX := Ship(tbl, ey, schemaHash, hash, known);
    hide *;
    forall p {
      AntiEntropy.ExchangeConverges(sx, x, ex, sy, y, ey, vx, vy, p);
    }
  }
}
