/**
 Sync payloads: rows of typed values one after the other behind a 32-byte header, compressed when that
 does not make them longer. The aggregate that builds one, and the function that takes one apart.
 */
module Payload {
  import opened Values
  import opened Wrappers
  import PkCodec
  import Lz4Format
  import Lz4Greedy
  import Lz4Compress
  import Lz4Gain
  import Lz4Decompress
  import Lz4RoundTrip

  const HEADER_SIZE: nat := 32
  const MINBUF_SIZE: nat := 512 * 1024
  const SIGNATURE: nat := 0x434C_5359
  const VERSION: nat := 1
  const LIBVERSION: Bytes := [0, 8, 12]
  const INT32_RANGE: nat := 0x8000_0000
  /** SQLITE_MAX_ALLOCATION_SIZE: the allocator refuses more. */
  const MAX_ALLOCATION: nat := 2147483391

  type Tuple = seq<Value>

  // ---------- the header ----------

  datatype Header = Header(
    signature: nat, version: Byte, libversion: Bytes, expandedSize: nat, ncols: nat, nrows: nat, schemaHash: nat)

  predicate HeaderOk(h: Header) {
    && h.signature < 0x1_0000_0000 && |h.libversion| == 3 && h.expandedSize < 0x1_0000_0000
    && h.ncols < 0x1_0000 && h.nrows < 0x1_0000_0000 && h.schemaHash < 0x1_0000_0000_0000_0000
  }

  /** The packed struct, every number in network order, six bytes unused. */
  function HeaderBytes(h: Header): Bytes {
    PkCodec.BigEndian(h.signature, 4) + ([h.version] + h.libversion) + PkCodec.BigEndian(h.expandedSize, 4)
    + PkCodec.BigEndian(h.ncols, 2) + PkCodec.BigEndian(h.nrows, 4) + PkCodec.BigEndian(h.schemaHash, 8)
    + [0, 0, 0, 0, 0, 0]
  }

  function ReadHeader(b: Bytes): Header
    requires |b| >= HEADER_SIZE
  {
    Header(PkCodec.FromBigEndian(b[..4]), b[4], b[5..8], PkCodec.FromBigEndian(b[8..12]),
           PkCodec.FromBigEndian(b[12..14]),
           PkCodec.FromBigEndian(b[14..18]), PkCodec.FromBigEndian(b[18..26]))
  }

  lemma HeaderRoundTrip(h: Header, body: Bytes)
    requires HeaderOk(h)
    ensures |HeaderBytes(h)| == HEADER_SIZE && ReadHeader(HeaderBytes(h) + body) == h
    ensures (HeaderBytes(h) + body)[HEADER_SIZE..] == body
  {
    hide PkCodec.BigEndian, PkCodec.FromBigEndian;
    Powers();
    PkCodec.BigEndianRoundTrip(h.signature, 4);
    PkCodec.BigEndianRoundTrip(h.expandedSize, 4);
    PkCodec.BigEndianRoundTrip(h.ncols, 2);
    PkCodec.BigEndianRoundTrip(h.nrows, 4);
    PkCodec.BigEndianRoundTrip(h.schemaHash, 8);
    var b := HeaderBytes(h) + body;
    assert b[..4] == PkCodec.BigEndian(h.signature, 4);
    assert b[5..8] == h.libversion;
    assert b[8..12] == PkCodec.BigEndian(h.expandedSize, 4);
    assert b[12..14] == PkCodec.BigEndian(h.ncols, 2);
    assert b[14..18] == PkCodec.BigEndian(h.nrows, 4);
    assert b[18..26] == PkCodec.BigEndian(h.schemaHash, 8);
  }

  /** Where each field is: signature, version and library version first, then the sizes, all high byte first. */
  lemma HeaderLayout(expandedSize: nat, ncols: nat, nrows: nat, schemaHash: nat)
    requires expandedSize < 0x1_0000_0000 && ncols < 0x1_0000
    requires nrows < 0x1_0000_0000 && schemaHash < 0x1_0000_0000_0000_0000
    ensures var b := HeaderBytes(HeaderOf(expandedSize, ncols, nrows, schemaHash));
      && |b| == HEADER_SIZE && b[..8] == [0x43, 0x4C, 0x53, 0x59, 1, 0, 8, 12]
      && PkCodec.FromBigEndian(b[8..12]) == expandedSize && PkCodec.FromBigEndian(b[12..14]) == ncols
      && PkCodec.FromBigEndian(b[14..18]) == nrows && PkCodec.FromBigEndian(b[18..26]) == schemaHash
      && b[26..] == [0, 0, 0, 0, 0, 0]
  {
    hide PkCodec.FromBigEndian;
    var h := HeaderOf(expandedSize, ncols, nrows, schemaHash);
    HeaderRoundTrip(h, []);
    var b := HeaderBytes(h);
    assert b + [] == b;
    SignatureBytes();
    hide PkCodec.BigEndian;
    assert b[..8] == PkCodec.BigEndian(SIGNATURE, 4) + ([VERSION] + LIBVERSION);
  }

  lemma SignatureBytes()
    ensures PkCodec.BigEndian(SIGNATURE, 4) == [0x43, 0x4C, 0x53, 0x59]
  {
    assert PkCodec.BigEndian(SIGNATURE / 256 / 256 / 256, 1) == [0x43];
    assert PkCodec.BigEndian(SIGNATURE / 256 / 256, 2) == [0x43, 0x4C];
    assert PkCodec.BigEndian(SIGNATURE / 256, 3) == [0x43, 0x4C, 0x53];
  }

  lemma Powers()
    ensures PkCodec.Pow256(2) == 0x1_0000 && PkCodec.Pow256(4) == 0x1_0000_0000
    ensures PkCodec.Pow256(8) == 0x1_0000_0000_0000_0000
  {
    PkCodec.Pow256Values();
    assert PkCodec.Pow256(2) == 256 * PkCodec.Pow256(1) == 256 * (256 * PkCodec.Pow256(0));
  }

  // ---------- rows ----------

  function EncodeRows(rows: seq<Tuple>): Bytes {
    if rows == [] then [] else PkCodec.Encode(rows[0]) + EncodeRows(rows[1..])
  }

  /** Rows of the same width, at least one value wide, whose values the codec can hold. */
  predicate RowsOk(rows: seq<Tuple>, ncols: nat) {
    ncols >= 1 && forall r :: r in rows ==> |r| == ncols && PkCodec.AllStorable(r)
  }

  lemma {:induction false} EncodeRowsAppend(rows: seq<Tuple>, row: Tuple)
    ensures EncodeRows(rows + [row]) == EncodeRows(rows) + PkCodec.Encode(row)
    decreases |rows|
  {
    hide PkCodec.Encode;
    if rows == [] {
      assert rows + [row] == [row] && [row][1..] == [];
    } else {
      assert (rows + [row])[1..] == rows[1..] + [row];
      EncodeRowsAppend(rows[1..], row);
    }
  }

  lemma ValueNotEmpty(v: Value)
    ensures |PkCodec.EncodeValue(v)| >= 1
  {
    hide PkCodec.BigEndian;
  }

  lemma TupleNotEmpty(r: Tuple)
    requires r != []
    ensures |PkCodec.Encode(r)| >= 1
  {
    ValueNotEmpty(r[0]);
    hide PkCodec.EncodeValue;
  }

  /** Every row takes at least one byte. */
  lemma {:induction false} RowsTakeBytes(rows: seq<Tuple>, ncols: nat)
    requires RowsOk(rows, ncols)
    ensures |rows| <= |EncodeRows(rows)|
  {
    hide PkCodec.Encode;
    if rows != [] {
      TupleNotEmpty(rows[0]);
      RowsTakeBytes(rows[1..], ncols);
    }
  }

  /** `n` rows of `ncols` values from `seek` on; no value where the C code would read past the end. */
  function DecodeRows(buf: Bytes, seek: nat, ncols: nat, n: nat): Option<seq<Tuple>>
    decreases n
  {
    if n == 0 then Some([])
    else
      match PkCodec.Decode(buf, seek, ncols)
      case None => None
      case Some(r) =>
        match DecodeRows(buf, r.1, ncols, n - 1)
        case None => None
        case Some(rest) => Some([r.0] + rest)
  }

  lemma OneMoreRow(buf: Bytes, seek: nat, ncols: nat, rows: seq<Tuple>, next: nat)
    requires rows != [] && PkCodec.Decode(buf, seek, ncols) == Some((rows[0], next))
    requires DecodeRows(buf, next, ncols, |rows[1..]|) == Some(rows[1..])
    ensures DecodeRows(buf, seek, ncols, |rows|) == Some(rows)
  {
    hide PkCodec.Decode;
    assert rows == [rows[0]] + rows[1..];
  }

  lemma RowsTail(rows: seq<Tuple>, ncols: nat)
    requires RowsOk(rows, ncols) && rows != []
    ensures RowsOk(rows[1..], ncols) && |rows[0]| == ncols && PkCodec.AllStorable(rows[0])
    ensures EncodeRows(rows) == PkCodec.Encode(rows[0]) + EncodeRows(rows[1..])
  {
  }

  lemma TupleAt(row: Tuple, buf: Bytes, seek: nat)
    requires PkCodec.AllStorable(row) && seek <= |buf| && PkCodec.Encode(row) <= buf[seek..]
    ensures PkCodec.Decode(buf, seek, |row|) == Some((row, seek + |PkCodec.Encode(row)|))
  {
    hide PkCodec.Encode, PkCodec.Decode;
    var e := PkCodec.Encode(row);
    PkCodec.RoundTrip(row, buf[..seek], buf[seek + |e|..]);
    assert buf == buf[..seek] + buf[seek..] && buf[seek..] == e + buf[seek + |e|..];
    assert buf == buf[..seek] + e + buf[seek + |e|..];
  }

  lemma PrefixSplit(buf: Bytes, seek: nat, a: Bytes, b: Bytes)
    requires seek <= |buf| && a + b <= buf[seek..]
    ensures seek + |a| <= |buf| && a <= buf[seek..] && b <= buf[seek + |a|..]
  {
    assert buf[seek..][..|a|] == a;
    assert buf[seek + |a|..] == buf[seek..][|a|..];
  }

  /** The first row of a concatenation, and where the others are. */
  lemma FirstRow(rows: seq<Tuple>, ncols: nat, buf: Bytes, seek: nat)
    requires |rows| > 0 && RowsOk(rows, ncols) && seek <= |buf| && EncodeRows(rows) <= buf[seek..]
    ensures var next := seek + |PkCodec.Encode(rows[0])|;
      && next <= |buf| && PkCodec.Decode(buf, seek, ncols) == Some((rows[0], next))
      && RowsOk(rows[1..], ncols) && EncodeRows(rows[1..]) <= buf[next..]
  {
    hide *;
    RowsTail(rows, ncols);
    var head, tail := PkCodec.Encode(rows[0]), EncodeRows(rows[1..]);
    PrefixSplit(buf, seek, head, tail);
    TupleAt(rows[0], buf, seek);
  }

  /** Concatenated rows come apart again, in order, whatever stands before and after them. */
  lemma {:induction false} RowsRoundTrip(rows: seq<Tuple>, ncols: nat, buf: Bytes, seek: nat)
    requires RowsOk(rows, ncols) && seek <= |buf| && EncodeRows(rows) <= buf[seek..]
    ensures DecodeRows(buf, seek, ncols, |rows|) == Some(rows)
    decreases |rows|
  {
    hide RowsOk, EncodeRows, PkCodec.Encode, PkCodec.Decode;
    if |rows| > 0 {
      FirstRow(rows, ncols, buf, seek);
      var next := seek + |PkCodec.Encode(rows[0])|;
      RowsRoundTrip(rows[1..], ncols, buf, next);
      OneMoreRow(buf, seek, ncols, rows, next);
    }
  }

  // ---------- what a payload is ----------

  function HeaderOf(expandedSize: nat, ncols: nat, nrows: nat, schemaHash: nat): Header {
    Header(SIGNATURE, VERSION, LIBVERSION, expandedSize, ncols, nrows, schemaHash)
  }

  /**
   A header, and behind it the rows as they are or an LZ4 block of them. Zero as the expanded size marks the
   former.
   */
  ghost predicate IsPayload(blob: Bytes, rows: seq<Tuple>, ncols: nat, schemaHash: nat) {
    exists body: Bytes, expandedSize: nat ::
      && blob == HeaderBytes(HeaderOf(expandedSize, ncols, |rows|, schemaHash)) + body
      && IsBody(body, expandedSize, EncodeRows(rows))
  }

  ghost predicate IsBody(body: Bytes, expandedSize: nat, data: Bytes) {
    if expandedSize == 0 then body == data
    else expandedSize == |data| <= Lz4Greedy.MAX_INPUT_SIZE && |body| <= |data| && Lz4Greedy.IsBlockOf(body, data)
  }

  // ---------- building ----------

  /** The compressor makes a block of it, and one that is no longer. */
  ghost predicate Compresses(src: Bytes, hash: Bytes -> nat)
    requires Lz4Greedy.HashFits(hash, Lz4Greedy.TableSize(Lz4Greedy.TableFor(|src|)))
  {
    |src| <= Lz4Greedy.MAX_INPUT_SIZE && |Lz4Greedy.BlockBytes(src, hash, 1)| <= |src|
  }

  /** Compressed exactly when that is possible and not longer; otherwise as it is, and zero for its size. */
  ghost predicate IsPacked(body: Bytes, expandedSize: nat, src: Bytes, hash: Bytes -> nat)
    requires Lz4Greedy.HashFits(hash, Lz4Greedy.TableSize(Lz4Greedy.TableFor(|src|)))
  {
    if Compresses(src, hash) then body == Lz4Greedy.BlockBytes(src, hash, 1) && expandedSize == |src|
    else body == src && expandedSize == 0
  }

  method Pack(src: Bytes, hash: Bytes -> nat) returns (body: Bytes, expandedSize: nat)
    requires |src| < INT32_RANGE && Lz4Greedy.HashFits(hash, Lz4Greedy.TableSize(Lz4Greedy.TableFor(|src|)))
    ensures IsPacked(body, expandedSize, src, hash)
    ensures IsBody(body, expandedSize, src) && |body| <= |src| && expandedSize <= |src|
    ensures expandedSize == 0 ==> body == src
  {
    hide Lz4Greedy.HashFits, Lz4Greedy.IsBlockOf, Lz4Greedy.BlockBytes;
    var zbound := Lz4Compress.CompressBound(|src|);
    var packed := new Byte[zbound];
    var zused := Lz4Compress.CompressDefault(src, packed, hash, zbound);
    var useUncompressed := zused == 0 || zused > |src|;
    if useUncompressed { body, expandedSize := src, 0; } else { body, expandedSize := packed[..zused], |src|; }
  }

  /** Rows that are one repeated byte are sent in about a 255th of their size. */
  lemma RunIsPacked(src: Bytes, hash: Bytes -> nat, b: Byte, body: Bytes, expandedSize: nat)
    requires Lz4Greedy.MIN_LENGTH <= |src| <= Lz4Greedy.MAX_INPUT_SIZE && Lz4Gain.Fill(src, 0, |src|, b)
    requires Lz4Greedy.HashFits(hash, Lz4Greedy.TableSize(Lz4Greedy.TableFor(|src|)))
    requires IsPacked(body, expandedSize, src, hash)
    ensures expandedSize == |src| && |body| == 10 + (|src| + 230) / 255
  {
    Lz4Gain.RunSize(src, hash, 1, b);
    hide Lz4Greedy.BlockBytes;
  }

  /** cloudsync_network_payload: the aggregate's growing buffer. */
  class PayloadBuffer {
    var buffer: array<Byte>
    var bused: nat
    var nrows: nat
    var ncols: nat
    ghost var rows: seq<Tuple>

    ghost predicate Valid()
      reads this, buffer
    {
      && nrows == |rows|
      && (if nrows == 0 then bused == 0 && buffer.Length == 0
          else && HEADER_SIZE <= bused <= buffer.Length && buffer[HEADER_SIZE..bused] == EncodeRows(rows)
               && RowsOk(rows, ncols) && ncols < 0x1_0000)
    }

    constructor ()
      ensures Valid() && rows == [] && fresh(buffer)
    {
      buffer := new Byte[0];
      bused, nrows, ncols := 0, 0, 0;
      rows := [];
    }

    /**
     cloudsync_buffer_check: grow by what is needed, or by half a megabyte if that is more; the first time,
     leave room for the header. That room is left after the size was settled, so the row that is to follow
     fits unless it is the first and longer than the first allocation without the header.
     */
    method BufferCheck(needed: nat)
      requires needed > 0
      requires (if nrows == 0 then bused == 0 && buffer.Length == 0 else HEADER_SIZE <= bused <= buffer.Length)
      modifies this`buffer, this`bused
      ensures buffer == old(buffer) || fresh(buffer)
      ensures nrows == 0 ==> bused == HEADER_SIZE
      ensures nrows > 0 ==> bused == old(bused) <= buffer.Length && buffer[..bused] == old(buffer[..bused])
      ensures bused + needed <= buffer.Length <==> nrows > 0 || needed <= MINBUF_SIZE - HEADER_SIZE
    {
      if bused + needed > buffer.Length {
        var grow := if needed < MINBUF_SIZE then MINBUF_SIZE else needed;
        var bigger := new Byte[buffer.Length + grow];
        forall i | 0 <= i < buffer.Length {
          bigger[i] := buffer[i];
        }
        assert bigger[..buffer.Length] == buffer[..];
        assert nrows > 0 ==> bigger[..bused] == buffer[..][..bused];
        buffer := bigger;
        if nrows == 0 { bused := HEADER_SIZE; }
      }
    }

    /** cloudsync_payload_encode_step: one row more. */
    method EncodeStep(argv: Tuple)
      requires Valid() && PkCodec.AllStorable(argv) && 1 <= |argv| < 0x1_0000
      requires if nrows == 0 then |PkCodec.Encode(argv)| <= MINBUF_SIZE - HEADER_SIZE else |argv| == ncols
      modifies this, buffer
      ensures Valid() && rows == old(rows) + [argv] && ncols == |argv|
      ensures buffer == old(buffer) || fresh(buffer)
    {
      hide PkCodec.Encode, PkCodec.Written, PkCodec.AllStorable, RowsOk, EncodeRows;
      StepKeeps(rows, ncols, argv);
      if nrows == 0 { ncols := |argv|; }
      var breq := PkCodec.PkEncodeSize(argv, 0);
      TupleNotEmpty(argv);
      Reserve(breq);
      Append(argv);
      nrows := nrows + 1;
      rows := rows + [argv];
    }

    method Append(argv: Tuple)
      requires PkCodec.AllStorable(argv) && HEADER_SIZE <= bused && bused + |PkCodec.Encode(argv)| <= buffer.Length
      modifies this`bused, buffer
      ensures HEADER_SIZE <= bused <= buffer.Length
      ensures buffer[HEADER_SIZE..bused] == old(buffer[HEADER_SIZE..bused]) + PkCodec.Encode(argv)
    {
      hide PkCodec.Encode, PkCodec.Written;
      ghost var before := buffer[..];
      var next := PkCodec.EncodeInto(argv, buffer, bused);
      RowWritten(before, buffer[..], bused, PkCodec.Encode(argv));
      assert before[HEADER_SIZE..bused] == old(buffer[HEADER_SIZE..bused]);
      bused := next;
    }

    method Reserve(breq: nat)
      requires breq > 0 && nrows == |rows|
      requires if nrows == 0 then bused == 0 && buffer.Length == 0 && breq <= MINBUF_SIZE - HEADER_SIZE
               else HEADER_SIZE <= bused <= buffer.Length && buffer[HEADER_SIZE..bused] == EncodeRows(rows)
      modifies this`buffer, this`bused
      ensures buffer == old(buffer) || fresh(buffer)
      ensures HEADER_SIZE <= bused && bused + breq <= buffer.Length && buffer[HEADER_SIZE..bused] == EncodeRows(rows)
    {
      NoRows(rows);
      hide EncodeRows;
      ghost var stored := buffer[..bused];
      BufferCheck(breq);
      assert nrows > 0 ==> buffer[..bused][HEADER_SIZE..] == stored[HEADER_SIZE..];
    }

    /**
     cloudsync_payload_encode_final: compress, keep the result unless it is longer or there is none, and put
     the header in front. No rows give no payload.
     */
    method EncodeFinal(schemaHash: nat, hash: Bytes -> nat) returns (blob: Option<Bytes>)
      requires Valid() && schemaHash < 0x1_0000_0000_0000_0000 && bused < INT32_RANGE
      requires nrows > 0 ==>
        Lz4Greedy.HashFits(hash, Lz4Greedy.TableSize(Lz4Greedy.TableFor(bused - HEADER_SIZE)))
      modifies buffer
      ensures nrows == 0 ==> blob == None
      ensures nrows > 0 ==>
        && blob.Some? && IsPayload(blob.value, rows, ncols, schemaHash)
        && |blob.value| <= HEADER_SIZE + |EncodeRows(rows)| && |EncodeRows(rows)| == bused - HEADER_SIZE
        && IsPacked(blob.value[HEADER_SIZE..], ReadHeader(blob.value).expandedSize, EncodeRows(rows), hash)
    {
      if nrows == 0 { return None; }
      RowsTakeBytes(rows, ncols);
      hide RowsOk, EncodeRows, IsPayload, HeaderBytes, ReadHeader, IsBody, IsPacked, Lz4Greedy.HashFits;
      var src := buffer[HEADER_SIZE..bused];
      var body, expandedSize := Pack(src, hash);
      var header := HeaderOf(expandedSize, ncols, nrows, schemaHash);
      HeaderRoundTrip(header, body);
      assert (HeaderBytes(header) + body)[HEADER_SIZE..] == body;
      if expandedSize == 0 {
        var sealed := Seal(HeaderBytes(header));
        blob := Some(sealed);
      } else {
        blob := Some(HeaderBytes(header) + body);
      }
      assert blob.value == HeaderBytes(header) + body;
      MakesPayload(blob.value, body, expandedSize, rows, ncols, schemaHash);
    }

    /** The header goes into the room that was left for it. */
    method Seal(header: Bytes) returns (blob: Bytes)
      requires |header| == HEADER_SIZE <= bused <= buffer.Length
      modifies buffer
      ensures blob == header + old(buffer[HEADER_SIZE..bused])
    {
      forall i | 0 <= i < HEADER_SIZE {
        buffer[i] := header[i];
      }
      blob := buffer[..bused];
    }
  }

  /**
   The first row that does not fit: a blob of 524253 bytes makes a row of 524257, one more than the first
   allocation holds behind the header, and any blob shorter than that still fits.
   */
  lemma FirstRowLimit(b: Bytes)
    requires 0x8000 <= |b| <= 524253
    ensures |PkCodec.Encode([Blob(b)])| == |b| + 4
    ensures |b| == 524253 ==> |PkCodec.Encode([Blob(b)])| > MINBUF_SIZE - HEADER_SIZE
    ensures |b| < 524253 ==> |PkCodec.Encode([Blob(b)])| <= MINBUF_SIZE - HEADER_SIZE
  {
    hide PkCodec.BigEndian;
    assert PkCodec.NBytesNeeded(|b|) == 3;
    assert [Blob(b)][1..] == [];
  }

  lemma NoRows(rows: seq<Tuple>)
    ensures rows == [] ==> EncodeRows(rows) == []
  {
  }

  lemma MakesPayload(blob: Bytes, body: Bytes, expandedSize: nat, rows: seq<Tuple>, ncols: nat, schemaHash: nat)
    requires blob == HeaderBytes(HeaderOf(expandedSize, ncols, |rows|, schemaHash)) + body
    requires IsBody(body, expandedSize, EncodeRows(rows))
    ensures IsPayload(blob, rows, ncols, schemaHash)
  {
  }

  lemma StepKeeps(rows: seq<Tuple>, ncols: nat, row: Tuple)
    requires PkCodec.AllStorable(row) && |row| >= 1 && (rows != [] ==> RowsOk(rows, ncols) && |row| == ncols)
    ensures EncodeRows(rows + [row]) == EncodeRows(rows) + PkCodec.Encode(row)
    ensures RowsOk(rows + [row], |row|) && (rows == [] ==> EncodeRows(rows) == [])
  {
    EncodeRowsAppend(rows, row);
  }

  lemma RowWritten(before: Bytes, after: Bytes, at: nat, e: Bytes)
    requires HEADER_SIZE <= at && PkCodec.Written(after, before, at, e)
    ensures at + |e| <= |after| && after[HEADER_SIZE..at + |e|] == before[HEADER_SIZE..at] + e
  {
  }

  // ---------- taking apart ----------

  datatype Outcome =
    | Rows(rows: seq<Tuple>)
    | TooShort
    | UnknownSchema
    | BadHeader
    | NoMemory
    | BadBlock
    | Overread

  /**
   What the body of a payload stands for: itself, or what its LZ4 block, its lengths summed in 32 bits,
   expands to if that has the announced size.
   */
  function Opened(expandedSize: nat, body: Bytes): Option<Bytes> {
    if expandedSize == 0 then Some(body)
    else
      match Lz4Format.Parse(body, 0)
      case Parsed(b) =>
        (match Lz4Format.Expand(b, [])
         case None => None
         case Some(data) => if |data| == expandedSize then Some(data) else None)
      case _ => None
  }

  /** Every error comes from its own check, in this order, and a payload that passes them all gives exactly its rows. */
  ghost predicate OutcomeOk(payload: Bytes, known: set<nat>, r: Outcome) {
    if |payload| < HEADER_SIZE then r == TooShort
    else
      var h, body := ReadHeader(payload), payload[HEADER_SIZE..];
      if h.schemaHash !in known then r == UnknownSchema
      else if h.signature != SIGNATURE || h.ncols == 0 then r == BadHeader
      else if h.expandedSize > MAX_ALLOCATION then r == NoMemory
      else
        var opens :=
          (h.expandedSize == 0 || Lz4Decompress.Taken(body, h.expandedSize)) && Opened(h.expandedSize, body).Some?;
        if !opens then r == BadBlock
        else
          match DecodeRows(Opened(h.expandedSize, body).value, 0, h.ncols, h.nrows)
          case None => r == Overread
          case Some(rows) => r == Rows(rows)
  }

  /** cloudsync_payload_decode and cloudsync_payload_apply, up to the rows that are then inserted one by one. */
  method Apply(payload: Bytes, known: set<nat>) returns (r: Outcome)
    requires |payload| < INT32_RANGE
    ensures OutcomeOk(payload, known, r)
  {
    hide Lz4Format.Parse, Lz4Format.Expand, Lz4Format.Strict, Lz4Decompress.Taken, DecodeRows, ReadHeader;
    if |payload| < HEADER_SIZE { return TooShort; }
    var header := ReadHeader(payload);
    if header.schemaHash !in known { return UnknownSchema; }
    if header.signature != SIGNATURE || header.ncols == 0 { return BadHeader; }
    var buffer := payload[HEADER_SIZE..];
    if header.expandedSize > MAX_ALLOCATION { return NoMemory; }
    if header.expandedSize != 0 {
      var clone := new Byte[header.expandedSize];
      var rc := Lz4Decompress.DecompressSafe(buffer, clone);
      if rc <= 0 || rc != header.expandedSize { return BadBlock; }
      buffer := clone[..];
      assert clone[..rc] == clone[..];
    }
    var rows := DecodeAll(buffer, header.ncols, header.nrows);
    r := if rows.Some? then Rows(rows.value) else Overread;
  }

  /** One row at a time. */
  method DecodeAll(buffer: Bytes, ncols: nat, nrows: nat) returns (r: Option<seq<Tuple>>)
    ensures r == DecodeRows(buffer, 0, ncols, nrows)
  {
    var seek, rows, i := 0, [], 0;
    ghost var whole := DecodeRows(buffer, 0, ncols, nrows);
    hide PkCodec.Decode;
    if whole.Some? { assert [] + whole.value == whole.value; }
    while i < nrows
      invariant i <= nrows
      invariant whole ==
        match DecodeRows(buffer, seek, ncols, nrows - i) case None => None case Some(rest) => Some(rows + rest)
    {
      var d := PkCodec.PkDecode(buffer, seek, ncols);
      if d.None? { return None; }
      ghost var rest := DecodeRows(buffer, d.value.1, ncols, nrows - i - 1);
      if rest.Some? { assert rows + ([d.value.0] + rest.value) == (rows + [d.value.0]) + rest.value; }
      rows := rows + [d.value.0];
      seek := d.value.1;
      i := i + 1;
    }
    assert rows + [] == rows;
    return Some(rows);
  }

  // ---------- round trip ----------

  /** What was built is opened and decoded to the rows it was built from, compressed or not. */
  lemma PayloadOpens(blob: Bytes, rows: seq<Tuple>, ncols: nat, schemaHash: nat, known: set<nat>, r: Outcome)
    requires IsPayload(blob, rows, ncols, schemaHash) && RowsOk(rows, ncols)
    requires ncols < 0x1_0000 && |rows| < 0x1_0000_0000
    requires schemaHash < 0x1_0000_0000_0000_0000 && schemaHash in known && |blob| < INT32_RANGE
    ensures OutcomeOk(blob, known, r) ==> r == Rows(rows)
    ensures ReadHeader(blob).expandedSize == 0 ==> blob[HEADER_SIZE..] == EncodeRows(rows)
  {
    var body, expandedSize :|
      && blob == HeaderBytes(HeaderOf(expandedSize, ncols, |rows|, schemaHash)) + body
      && IsBody(body, expandedSize, EncodeRows(rows));
    hide *;
    BodyPayloadOpens(body, expandedSize, rows, ncols, schemaHash, known, r);
  }

  lemma BodyPayloadOpens(body: Bytes, expandedSize: nat, rows: seq<Tuple>, ncols: nat, schemaHash: nat,
                         known: set<nat>, r: Outcome)
    requires IsBody(body, expandedSize, EncodeRows(rows)) && RowsOk(rows, ncols)
    requires ncols < 0x1_0000 && |rows| < 0x1_0000_0000
    requires schemaHash < 0x1_0000_0000_0000_0000 && schemaHash in known
    ensures var blob := HeaderBytes(HeaderOf(expandedSize, ncols, |rows|, schemaHash)) + body;
      |blob| < INT32_RANGE ==>
        && (OutcomeOk(blob, known, r) ==> r == Rows(rows)) && |blob| >= HEADER_SIZE
        && (ReadHeader(blob).expandedSize == 0 ==> blob[HEADER_SIZE..] == EncodeRows(rows))
  {
    var header := HeaderOf(expandedSize, ncols, |rows|, schemaHash);
    BodyOpens(body, expandedSize, EncodeRows(rows));
    HeaderRoundTrip(header, body);
    hide HeaderBytes, ReadHeader, RowsOk, EncodeRows, DecodeRows, Lz4Format.Parse, Lz4Format.Expand, Lz4Format.Strict;
    hide Lz4Decompress.Taken, Opened, IsBody;
    RowsRoundTrip(rows, ncols, EncodeRows(rows), 0);
    var blob := HeaderBytes(header) + body;
    assert ReadHeader(blob) == header && blob[HEADER_SIZE..] == body;
    assert DecodeRows(Opened(expandedSize, body).value, 0, ncols, |rows|) == Some(rows);
  }

  lemma BodyOpens(body: Bytes, expandedSize: nat, data: Bytes)
    requires IsBody(body, expandedSize, data)
    ensures Opened(expandedSize, body) == Some(data) && (expandedSize == 0 ==> body == data)
    ensures expandedSize <= MAX_ALLOCATION
    ensures expandedSize != 0 ==> Lz4Decompress.Taken(body, expandedSize)
  {
    hide Lz4Format.Parse, Lz4Format.Expand, Lz4Format.Strict, Lz4Decompress.Taken, Lz4Greedy.IsBlockOf;
    if expandedSize != 0 { Lz4RoundTrip.BlockDecodes(body, data, expandedSize); }
  }
}
