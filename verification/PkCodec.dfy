/** The typed value codec of src/pk.c: primary-key blobs and payload rows. */
module PkCodec {
  import opened Values
  import opened Wrappers

  const TYPE_NEGATIVE_INTEGER := 0
  const TYPE_INTEGER := 1
  const TYPE_FLOAT := 2
  const TYPE_TEXT := 3
  const TYPE_BLOB := 4
  const TYPE_NULL := 5
  const TYPE_MAX_NEGATIVE_INTEGER := 6
  const TYPE_NEGATIVE_FLOAT := 7

  const INT64_MIN: int := -0x8000_0000_0000_0000

  /** A value whose byte length fits the 32-bit length the codec keeps (SQLite's own limit). */
  predicate Storable(v: Value) {
    match v
    case Text(t) => |t| < 0x8000_0000
    case Blob(b) => |b| < 0x8000_0000
    case _ => true
  }

  predicate AllStorable(vs: seq<Value>) {
    forall v <- vs :: Storable(v)
  }

  // ---------- integers ----------

  /** pk_encode_nbytes_needed */
  function NBytesNeeded(value: nat): nat {
    if value <= 0x7F then 1
    else if value <= 0x7FFF then 2
    else if value <= 0x7F_FFFF then 3
    else if value <= 0x7FFF_FFFF then 4
    else if value <= 0x7F_FFFF_FFFF then 5
    else if value <= 0x7FFF_FFFF_FFFF then 6
    else if value <= 0x7F_FFFF_FFFF_FFFF then 7
    else 8
  }

  function Pow256(n: nat): nat {
    if n == 0 then 1 else 256 * Pow256(n - 1)
  }

  /** The least n in 1..8 whose 8n-1 bits hold the value. */
  lemma NBytesMinimal(value: nat)
    requires value < 0x8000_0000_0000_0000
    ensures 1 <= NBytesNeeded(value) <= 8
    ensures 2 * value < Pow256(NBytesNeeded(value))
    ensures forall n :: 1 <= n < NBytesNeeded(value) ==> 2 * value >= Pow256(n)
  {
    assert Pow256(1) == 0x100 && Pow256(2) == 0x1_0000 && Pow256(3) == 0x100_0000;
    assert Pow256(4) == 0x1_0000_0000;
    assert Pow256(5) == 0x100_0000_0000;
    assert Pow256(6) == 0x1_0000_0000_0000;
    assert Pow256(7) == 0x100_0000_0000_0000;
    assert Pow256(8) == 0x1_0000_0000_0000_0000;
  }

  /** The low n bytes of a value, most significant first. */
  function BigEndian(value: nat, n: nat): (r: Bytes)
    ensures |r| == n
  {
    if n == 0 then [] else BigEndian(value / 256, n - 1) + [value % 256]
  }

  function FromBigEndian(b: Bytes): nat {
    if b == [] then 0 else 256 * FromBigEndian(b[..|b| - 1]) + b[|b| - 1]
  }

  lemma {:induction false} BigEndianRoundTrip(value: nat, n: nat)
    requires value < Pow256(n)
    ensures FromBigEndian(BigEndian(value, n)) == value
  {
    if n > 0 {
      BigEndianRoundTrip(value / 256, n - 1);
      assert BigEndian(value, n)[..n - 1] == BigEndian(value / 256, n - 1);
    }
  }

  // ---------- the format ----------

  /** `value < 0` on doubles: the sign bit of anything but a zero. */
  predicate NegativeDouble(bits: DoubleBits) {
    bits > SIGN_BIT
  }

  function TypeByte(nbytes: nat, code: nat): Byte
    requires nbytes <= 8 && code <= 7
  {
    8 * nbytes + code
  }

  function EncodeMagnitude(m: nat, code: nat): Bytes
    requires code <= 7
  {
    var n := NBytesNeeded(m);
    [TypeByte(n, code)] + BigEndian(m, n)
  }

  function EncodeValue(v: Value): Bytes {
    match v
    case Integer(i) =>
      if i == INT64_MIN then [TYPE_MAX_NEGATIVE_INTEGER]
      else if i < 0 then EncodeMagnitude(-i, TYPE_NEGATIVE_INTEGER)
      else EncodeMagnitude(i, TYPE_INTEGER)
    case Float(bits) =>
      if NegativeDouble(bits) then [TYPE_NEGATIVE_FLOAT] + BigEndian(bits - SIGN_BIT, 8)
      else [TYPE_FLOAT] + BigEndian(bits, 8)
    case Text(t) => EncodeMagnitude(|t|, TYPE_TEXT) + t
    case Blob(b) => EncodeMagnitude(|b|, TYPE_BLOB) + b
    case Null => [TYPE_NULL]
  }

  function Encode(vs: seq<Value>): Bytes {
    if vs == [] then [] else EncodeValue(vs[0]) + Encode(vs[1..])
  }

  /** A primary-key blob starts with its number of values, in one byte. */
  function EncodePrikey(vs: seq<Value>): Bytes {
    [|vs| % 256] + Encode(vs)
  }

  /** Reading a 64-bit pattern as signed. */
  function AsInt64(x: int): Int64 {
    var m := x % 0x1_0000_0000_0000_0000;
    if m >= 0x8000_0000_0000_0000 then m - 0x1_0000_0000_0000_0000 else m
  }

  /** A decoded double; binding a NaN to a statement stores NULL. */
  function DoubleValue(bits: nat): Value {
    var b := bits % 0x1_0000_0000_0000_0000;
    if Magnitude(b) <= INFINITY_BITS then Float(b) else Null
  }

  function FlipSign(bits: nat): nat {
    var b := bits % 0x1_0000_0000_0000_0000;
    if b >= SIGN_BIT then b - SIGN_BIT else b + SIGN_BIT
  }

  /** The integer in the `n` bytes at `at`. */
  function IntAt(buf: Bytes, at: nat, n: nat): int
    requires at + n <= |buf|
  {
    AsInt64(FromBigEndian(buf[at..at + n]))
  }

  function DecodeDouble(buf: Bytes, at: nat, negative: bool): Option<(Value, nat)> {
    if at + 8 > |buf| then None
    else
      var bits := FromBigEndian(buf[at..at + 8]);
      Some((DoubleValue(if negative then FlipSign(bits) else bits), at + 8))
  }

  function DecodeInteger(buf: Bytes, at: nat, n: nat, negative: bool): Option<(Value, nat)> {
    if at + n > |buf| then None
    else Some((Integer(AsInt64(if negative then -IntAt(buf, at, n) else IntAt(buf, at, n))), at + n))
  }

  function DecodeData(buf: Bytes, at: nat, n: nat): Option<(Bytes, nat)> {
    if at + n > |buf| then None
    else
      var len := IntAt(buf, at, n);
      if len < 0 || len >= 0x8000_0000 || at + n + len > |buf| then None
      else Some((buf[at + n..at + n + len], at + n + len))
  }

  /**
   One step of pk_decode: the value at `seek` and where the next one starts. The C code trusts its
   buffer; reading past the end, or a length that is negative as an int32, is `None` here.
   */
  function DecodeValue(buf: Bytes, seek: nat): Option<(Value, nat)> {
    if seek >= |buf| then None
    else
      var code, n, at := buf[seek] % 8, buf[seek] / 8, seek + 1;
      if code == TYPE_MAX_NEGATIVE_INTEGER then Some((Integer(INT64_MIN), at))
      else if code == TYPE_NULL then Some((Null, at))
      else if code == TYPE_FLOAT || code == TYPE_NEGATIVE_FLOAT then DecodeDouble(buf, at, code == TYPE_NEGATIVE_FLOAT)
      else if code == TYPE_INTEGER || code == TYPE_NEGATIVE_INTEGER then
        DecodeInteger(buf, at, n, code == TYPE_NEGATIVE_INTEGER)
      else
        match DecodeData(buf, at, n)
        case None => None
        case Some(d) => Some((if code == TYPE_TEXT then Text(d.0) else Blob(d.0), d.1))
  }

  function Decode(buf: Bytes, seek: nat, count: nat): Option<(seq<Value>, nat)>
    decreases count
  {
    if count == 0 then Some(([], seek))
    else
      match DecodeValue(buf, seek)
      case None => None
      case Some(r) =>
        match Decode(buf, r.1, count - 1)
        case None => None
        case Some(s) => Some(([r.0] + s.0, s.1))
  }

  function DecodePrikey(buf: Bytes): Option<(seq<Value>, nat)> {
    if buf == [] then None else Decode(buf, 1, buf[0])
  }

  /** Type in the low three bits of the first byte, byte count above it, lengths and integers high byte first. */
  lemma ExampleBytes()
    ensures EncodeValue(Integer(258)) == [8 * 2 + 1, 1, 2]
    ensures EncodeValue(Integer(-1)) == [8 * 1 + 0, 1]
    ensures EncodeValue(Integer(INT64_MIN)) == [6]
    ensures EncodeValue(Text([104, 105])) == [8 * 1 + 3, 2, 104, 105]
    ensures EncodeValue(Blob([])) == [8 * 1 + 4, 0]
    ensures EncodeValue(Null) == [5] && EncodeValue(Integer(7)) == [8 * 1 + 1, 7]
  {
    assert BigEndian(258, 2) == BigEndian(1, 1) + [2];
  }

  /** 1.0, -1.0 (its magnitude, with a type of its own), and -0.0 (which is not below 0). */
  lemma ExampleDoubles()
    ensures EncodeValue(Float(0x3FF0_0000_0000_0000)) == [2, 0x3F, 0xF0, 0, 0, 0, 0, 0, 0]
    ensures EncodeValue(Float(0xBFF0_0000_0000_0000)) == [7, 0x3F, 0xF0, 0, 0, 0, 0, 0, 0]
    ensures EncodeValue(Float(0x8000_0000_0000_0000)) == [2, 0x80, 0, 0, 0, 0, 0, 0, 0]
  {
    hide BigEndian, EncodeMagnitude;
    assert BigEndian(0x3FF0_0000_0000_0000, 8) == [0x3F, 0xF0, 0, 0, 0, 0, 0, 0] by {
      EightBytes(0x3F, 0xF0, 0, 0, 0, 0, 0, 0);
    }
    assert BigEndian(0x8000_0000_0000_0000, 8) == [0x80, 0, 0, 0, 0, 0, 0, 0] by {
      EightBytes(0x80, 0, 0, 0, 0, 0, 0, 0);
    }
    assert NegativeDouble(0xBFF0_0000_0000_0000) && !NegativeDouble(0x8000_0000_0000_0000);
    hide NegativeDouble;
  }

  /** Negative integers of more than one byte. */
  lemma ExampleIntegers()
    ensures EncodeValue(Integer(-0x0102_0304_0506_0708)) == [8 * 8 + 0, 1, 2, 3, 4, 5, 6, 7, 8]
    ensures EncodeValue(Integer(-258)) == [8 * 2 + 0, 1, 2]
  {
    assert EncodeValue(Integer(-258)) == [8 * 2 + 0, 1, 2] by {
      assert BigEndian(258, 2) == BigEndian(1, 1) + [2];
    }
    var m := 0x0102_0304_0506_0708;
    assert NBytesNeeded(m) == 8 && TypeByte(8, 0) == 64;
    hide BigEndian, NBytesNeeded, TypeByte;
    EightBytes(1, 2, 3, 4, 5, 6, 7, 8);
    assert EncodeMagnitude(m, 0) == [64] + BigEndian(m, 8);
    assert EncodeValue(Integer(-m)) == EncodeMagnitude(m, 0);
  }

  lemma EightBytes(a: Byte, b: Byte, c: Byte, d: Byte, e: Byte, f: Byte, g: Byte, h: Byte)
    ensures BigEndian(256 * (256 * (256 * (256 * (256 * (256 * (256 * a + b) + c) + d) + e) + f) + g) + h, 8)
      == [a, b, c, d, e, f, g, h]
  {
    var x2 := 256 * a + b;
    var x4 := 256 * (256 * x2 + c) + d;
    var x6 := 256 * (256 * x4 + e) + f;
    LowByte(a, 0);
    assert BigEndian(a, 1) == [a];
    LowByte(b, a);
    assert BigEndian(x2, 2) == [a, b];
    LowByte(c, x2);
    LowByte(d, 256 * x2 + c);
    assert BigEndian(x4, 4) == [a, b, c, d];
    LowByte(e, x4);
    LowByte(f, 256 * x4 + e);
    assert BigEndian(x6, 6) == [a, b, c, d, e, f];
    LowByte(g, x6);
    LowByte(h, 256 * x6 + g);
  }

  lemma LowByte(b: Byte, x: nat)
    ensures (256 * x + b) / 256 == x && (256 * x + b) % 256 == b
  {
  }

  /** A key blob is the number of columns and then the values in their order. */
  lemma ExampleKey()
    ensures EncodePrikey([Null, Integer(7)]) == [2, 5, 9, 7]
  {
    ExampleBytes();
    hide EncodeValue;
    var key := [Null, Integer(7)];
    assert key[1..] == [Integer(7)] && key[1..][1..] == [];
    assert Encode(key) == EncodeValue(Null) + (EncodeValue(Integer(7)) + Encode(key[1..][1..]));
  }

  // ---------- round trip ----------

  lemma Pow256Values()
    ensures Pow256(4) == 0x1_0000_0000 && Pow256(8) == 0x1_0000_0000_0000_0000
  {
    assert Pow256(4) == 0x1_0000_0000;
    assert Pow256(5) == 0x100_0000_0000;
    assert Pow256(6) == 0x1_0000_0000_0000;
    assert Pow256(7) == 0x100_0000_0000_0000;
  }

  /** A length- or sign-prefixed integer is read back from wherever it was written. */
  lemma MagnitudeRoundTrip(m: nat, code: nat, pre: Bytes, post: Bytes)
    requires m < 0x8000_0000_0000_0000 && code <= 7
    ensures var n := NBytesNeeded(m);
      var buf := pre + EncodeMagnitude(m, code) + post;
      && |EncodeMagnitude(m, code)| == 1 + n
      && buf[|pre|] % 8 == code && buf[|pre|] / 8 == n
      && IntAt(buf, |pre| + 1, n) == m
  {
    hide FromBigEndian, BigEndian, Pow256, NBytesNeeded;
    var n := NBytesNeeded(m);
    var buf := pre + EncodeMagnitude(m, code) + post;
    NBytesMinimal(m);
    BigEndianRoundTrip(m, n);
    assert buf[|pre|] == TypeByte(n, code);
    assert buf[|pre| + 1..|pre| + 1 + n] == BigEndian(m, n);
  }

  lemma IntegerRoundTrip(i: Int64, pre: Bytes, post: Bytes)
    ensures DecodeValue(pre + EncodeValue(Integer(i)) + post, |pre|) ==
      Some((Integer(i), |pre| + |EncodeValue(Integer(i))|))
  {
    hide EncodeMagnitude, IntAt;
    var buf := pre + EncodeValue(Integer(i)) + post;
    if i == INT64_MIN {
      assert buf[|pre|] == TYPE_MAX_NEGATIVE_INTEGER;
    } else if i < 0 {
      MagnitudeRoundTrip(-i, TYPE_NEGATIVE_INTEGER, pre, post);
    } else {
      MagnitudeRoundTrip(i, TYPE_INTEGER, pre, post);
    }
  }

  lemma DoubleRoundTrip(bits: DoubleBits, pre: Bytes, post: Bytes)
    ensures DecodeValue(pre + EncodeValue(Float(bits)) + post, |pre|) ==
      Some((Float(bits), |pre| + |EncodeValue(Float(bits))|))
  {
    hide FromBigEndian, BigEndian, Pow256;
    var buf := pre + EncodeValue(Float(bits)) + post;
    var stored := if NegativeDouble(bits) then bits - SIGN_BIT else bits;
    Pow256Values();
    BigEndianRoundTrip(stored, 8);
    assert buf[|pre|] == if NegativeDouble(bits) then TYPE_NEGATIVE_FLOAT else TYPE_FLOAT;
    assert buf[|pre| + 1..|pre| + 1 + 8] == BigEndian(stored, 8);
  }

  lemma DataRoundTrip(d: Bytes, code: nat, pre: Bytes, post: Bytes)
    requires |d| < 0x8000_0000 && (code == TYPE_TEXT || code == TYPE_BLOB)
    ensures var e := EncodeMagnitude(|d|, code) + d;
      DecodeValue(pre + e + post, |pre|) == Some((if code == TYPE_TEXT then Text(d) else Blob(d), |pre| + |e|))
  {
    hide EncodeMagnitude, IntAt, NBytesNeeded;
    var e := EncodeMagnitude(|d|, code) + d;
    var buf := pre + e + post;
    assert buf == pre + EncodeMagnitude(|d|, code) + (d + post);
    MagnitudeRoundTrip(|d|, code, pre, d + post);
    var at := |pre| + 1 + NBytesNeeded(|d|);
    assert buf[at..at + |d|] == d;
  }

  lemma ValueRoundTrip(v: Value, pre: Bytes, post: Bytes)
    requires Storable(v)
    ensures DecodeValue(pre + EncodeValue(v) + post, |pre|) == Some((v, |pre| + |EncodeValue(v)|))
  {
    hide DecodeValue, EncodeMagnitude;
    match v
    case Integer(i) => IntegerRoundTrip(i, pre, post);
    case Float(bits) => DoubleRoundTrip(bits, pre, post);
    case Text(t) => DataRoundTrip(t, TYPE_TEXT, pre, post);
    case Blob(b) => DataRoundTrip(b, TYPE_BLOB, pre, post);
    case Null => NullRoundTrip(pre, post);
  }

  lemma NullRoundTrip(pre: Bytes, post: Bytes)
    ensures DecodeValue(pre + EncodeValue(Null) + post, |pre|) == Some((Null, |pre| + 1))
  {
    assert (pre + EncodeValue(Null) + post)[|pre|] == TYPE_NULL;
  }

  /** Decoding encoded values gives the same values and consumes exactly the bytes written. */
  lemma {:induction false} RoundTrip(vs: seq<Value>, pre: Bytes, post: Bytes)
    requires AllStorable(vs)
    ensures Decode(pre + Encode(vs) + post, |pre|, |vs|) == Some((vs, |pre| + |Encode(vs)|))
    decreases |vs|
  {
    hide DecodeValue, EncodeValue;
    if vs != [] {
      var head := EncodeValue(vs[0]);
      var buf := pre + Encode(vs) + post;
      assert buf == pre + head + (Encode(vs[1..]) + post);
      ValueRoundTrip(vs[0], pre, Encode(vs[1..]) + post);
      assert buf == (pre + head) + Encode(vs[1..]) + post;
      RoundTrip(vs[1..], pre + head, post);
      assert vs == [vs[0]] + vs[1..];
    }
  }

  /** With at most 255 key columns (SQLite allows 128) a key blob decodes to its key. */
  lemma PrikeyRoundTrip(vs: seq<Value>)
    requires AllStorable(vs) && |vs| <= 255
    ensures DecodePrikey(EncodePrikey(vs)) == Some((vs, |EncodePrikey(vs)|))
  {
    hide Decode, Encode;
    RoundTrip(vs, [|vs|], []);
    assert [|vs|] + Encode(vs) + [] == EncodePrikey(vs);
  }

  /** Distinct keys have distinct blobs. */
  lemma PrikeyInjective(a: seq<Value>, b: seq<Value>)
    requires AllStorable(a) && AllStorable(b) && |a| <= 255 && |b| <= 255
    ensures EncodePrikey(a) == EncodePrikey(b) <==> a == b
  {
    hide DecodePrikey, EncodePrikey;
    PrikeyRoundTrip(a);
    PrikeyRoundTrip(b);
  }

  /** No encoded tuple of the same width is a proper prefix of another, so rows can be concatenated. */
  lemma EncodePrefixFree(a: seq<Value>, b: seq<Value>, x: Bytes, y: Bytes)
    requires AllStorable(a) && AllStorable(b) && |a| == |b|
    requires Encode(a) + x == Encode(b) + y
    ensures a == b && x == y
  {
    hide Decode, Encode;
    var buf := Encode(a) + x;
    assert buf == [] + Encode(a) + x by { assert [] + Encode(a) == Encode(a); }
    assert buf == [] + Encode(b) + y by { assert [] + Encode(b) == Encode(b); }
    RoundTrip(a, [], x);
    RoundTrip(b, [], y);
    assert |Encode(a)| == |Encode(b)|;
    assert x == buf[|Encode(a)|..] && y == buf[|Encode(b)|..];
  }

  // ---------- writing into a buffer ----------

  lemma MulBounds(k: int, d: int)
    requires d >= 0
    ensures k >= 1 ==> k * d >= d
    ensures k <= -1 ==> k * d <= -d
  {
  }

  lemma QuotientUnique(x: nat, d: nat, q: nat, r: nat)
    requires x == q * d + r && r < d
    ensures x / d == q
  {
    var q', r' := x / d, x % d;
    MulBounds(q' - q, d);
    assert (q' - q) * d == r - r';
  }

  lemma DivideTwice(x: nat, d: nat)
    requires d > 0
    ensures x / (256 * d) == x / d / 256
  {
    var q, r := x / d, x % d;
    var q', r' := q / 256, q % 256;
    MulBounds(255 - r', d);
    assert r' * d <= 255 * d by { assert (255 - r') * d >= 0; }
    assert q * d == 256 * q' * d + r' * d;
    assert x == q' * (256 * d) + (r' * d + r);
    QuotientUnique(x, 256 * d, q', r' * d + r);
  }

  lemma Pow256Positive(k: nat)
    ensures Pow256(k) > 0
  {
  }

  /** The value shifted right by k bytes. */
  function Shifted(value: nat, k: nat): nat {
    Pow256Positive(k);
    hide Pow256;
    value / Pow256(k)
  }

  /** The byte above the k lowest extends what is written so far. */
  lemma NextByte(value: nat, k: nat, i: nat)
    ensures BigEndian(Shifted(value, k), i + 1) == BigEndian(Shifted(value, k + 1), i) + [Shifted(value, k) % 256]
  {
    Pow256Positive(k);
    DivideTwice(value, Pow256(k));
  }

  lemma ShiftedOut(value: nat, k: nat)
    ensures value < Pow256(k) ==> Shifted(value, k) == 0
    ensures Shifted(value, 0) == value
  {
    assert Pow256(0) == 1;
    hide Pow256;
    Pow256Positive(k);
    if value < Pow256(k) { QuotientUnique(value, Pow256(k), 0, value); }
  }

  /** `buf` is `was` with `e` written at `at`. */
  ghost predicate Written(buf: Bytes, was: Bytes, at: nat, e: Bytes) {
    at + |e| <= |was| && buf == was[..at] + e + was[at + |e|..]
  }

  lemma WrittenTwice(a: Bytes, b: Bytes, c: Bytes, at: nat, e: Bytes, f: Bytes)
    requires Written(b, a, at, e) && Written(c, b, at + |e|, f)
    ensures Written(c, a, at, e + f)
  {
    assert b[at + |e| + |f|..] == a[at + |e| + |f|..];
  }

  method PkEncodeU8(buffer: array<Byte>, bseek: nat, value: Byte) returns (next: nat)
    requires bseek < buffer.Length
    modifies buffer
    ensures next == bseek + 1 && Written(buffer[..], old(buffer[..]), bseek, [value])
  {
    buffer[bseek] := value;
    next := bseek + 1;
  }

  method PkEncodeInt64(buffer: array<Byte>, bseek: nat, value: nat, nbytes: nat) returns (next: nat)
    requires bseek + nbytes <= buffer.Length && value < Pow256(nbytes)
    modifies buffer
    ensures next == bseek + nbytes && Written(buffer[..], old(buffer[..]), bseek, BigEndian(value, nbytes))
  {
    hide Pow256, Shifted, BigEndian, Written;
    next := bseek;
    var i := 0;
    ShiftedOut(value, nbytes);
    NothingWritten(buffer[..], bseek, Shifted(value, nbytes));
    while i < nbytes
      invariant 0 <= i <= nbytes && next == bseek + i
      invariant Written(buffer[..], old(buffer[..]), bseek, BigEndian(Shifted(value, nbytes - i), i))
    {
      ghost var before := buffer[..];
      var shift := nbytes - 1 - i;
      next := PkEncodeU8(buffer, next, Shifted(value, shift) % 256);
      NextByte(value, shift, i);
      WrittenTwice(old(buffer[..]), before, buffer[..], bseek, BigEndian(Shifted(value, shift + 1), i),
                   [Shifted(value, shift) % 256]);
      i := i + 1;
    }
  }

  lemma NothingWritten(buf: Bytes, at: nat, value: nat)
    requires at <= |buf|
    ensures Written(buf, buf, at, BigEndian(value, 0))
  {
  }

  method PkEncodeData(buffer: array<Byte>, bseek: nat, data: Bytes) returns (next: nat)
    requires bseek + |data| <= buffer.Length
    modifies buffer
    ensures next == bseek + |data| && Written(buffer[..], old(buffer[..]), bseek, data)
  {
    forall i | 0 <= i < |data| {
      buffer[bseek + i] := data[i];
    }
    next := bseek + |data|;
  }

  method EncodeMagnitudeInto(buffer: array<Byte>, bseek: nat, m: nat, code: nat) returns (next: nat)
    requires m < 0x8000_0000_0000_0000 && code <= 7
    requires bseek + |EncodeMagnitude(m, code)| <= buffer.Length
    modifies buffer
    ensures next == bseek + |EncodeMagnitude(m, code)|
    ensures Written(buffer[..], old(buffer[..]), bseek, EncodeMagnitude(m, code))
  {
    hide Pow256, NBytesNeeded;
    var nbytes := NBytesNeeded(m);
    NBytesMinimal(m);
    next := PkEncodeU8(buffer, bseek, TypeByte(nbytes, code));
    ghost var before := buffer[..];
    next := PkEncodeInt64(buffer, next, m, nbytes);
    WrittenTwice(old(buffer[..]), before, buffer[..], bseek, [TypeByte(nbytes, code)], BigEndian(m, nbytes));
  }

  method EncodeDataInto(buffer: array<Byte>, bseek: nat, data: Bytes, code: nat) returns (next: nat)
    requires |data| < 0x8000_0000 && code <= 7
    requires bseek + |EncodeMagnitude(|data|, code)| + |data| <= buffer.Length
    modifies buffer
    ensures next == bseek + |EncodeMagnitude(|data|, code) + data|
    ensures Written(buffer[..], old(buffer[..]), bseek, EncodeMagnitude(|data|, code) + data)
  {
    hide EncodeMagnitude;
    next := EncodeMagnitudeInto(buffer, bseek, |data|, code);
    ghost var before := buffer[..];
    next := PkEncodeData(buffer, next, data);
    WrittenTwice(old(buffer[..]), before, buffer[..], bseek, EncodeMagnitude(|data|, code), data);
  }

  /** One turn of the pk_encode loop. */
  method EncodeValueInto(buffer: array<Byte>, bseek: nat, v: Value) returns (next: nat)
    requires Storable(v) && bseek + |EncodeValue(v)| <= buffer.Length
    modifies buffer
    ensures next == bseek + |EncodeValue(v)| && Written(buffer[..], old(buffer[..]), bseek, EncodeValue(v))
  {
    hide EncodeMagnitude, BigEndian, Pow256;
    match v
    case Integer(i) =>
      if i == INT64_MIN {
        next := PkEncodeU8(buffer, bseek, TYPE_MAX_NEGATIVE_INTEGER);
      } else if i < 0 {
        next := EncodeMagnitudeInto(buffer, bseek, -i, TYPE_NEGATIVE_INTEGER);
      } else {
        next := EncodeMagnitudeInto(buffer, bseek, i, TYPE_INTEGER);
      }
    case Float(bits) =>
      next := EncodeDoubleInto(buffer, bseek, bits);
    case Text(t) =>
      next := EncodeDataInto(buffer, bseek, t, TYPE_TEXT);
    case Blob(b) =>
      next := EncodeDataInto(buffer, bseek, b, TYPE_BLOB);
    case Null =>
      next := PkEncodeU8(buffer, bseek, TYPE_NULL);
  }

  method EncodeDoubleInto(buffer: array<Byte>, bseek: nat, bits: DoubleBits) returns (next: nat)
    requires bseek + |EncodeValue(Float(bits))| <= buffer.Length
    modifies buffer
    ensures next == bseek + |EncodeValue(Float(bits))|
    ensures Written(buffer[..], old(buffer[..]), bseek, EncodeValue(Float(bits)))
  {
    hide BigEndian, Pow256, Written;
    var code, stored := TYPE_FLOAT, bits;
    if NegativeDouble(bits) { code, stored := TYPE_NEGATIVE_FLOAT, bits - SIGN_BIT; }
    next := PkEncodeU8(buffer, bseek, code);
    ghost var before := buffer[..];
    Pow256Values();
    next := PkEncodeInt64(buffer, next, stored, 8);
    WrittenTwice(old(buffer[..]), before, buffer[..], bseek, [code], BigEndian(stored, 8));
  }

  lemma {:induction false} EncodeAppend(a: seq<Value>, b: seq<Value>)
    ensures Encode(a + b) == Encode(a) + Encode(b)
    decreases |a|
  {
    hide EncodeValue;
    if a == [] {
      assert a + b == b;
    } else {
      EncodeAppend(a[1..], b);
      assert (a + b)[1..] == a[1..] + b;
      assert (a + b)[0] == a[0];
    }
  }

  /** The values up to i, encoded, and then the next one. */
  lemma EncodeNext(vs: seq<Value>, i: nat)
    requires i < |vs|
    ensures Encode(vs[..i + 1]) == Encode(vs[..i]) + EncodeValue(vs[i])
    ensures |Encode(vs[..i + 1])| <= |Encode(vs)|
  {
    hide EncodeValue;
    EncodeAppend(vs[..i], [vs[i]]);
    assert vs[..i + 1] == vs[..i] + [vs[i]];
    assert [vs[i]][1..] == [];
    EncodeAppend(vs[..i + 1], vs[i + 1..]);
    assert vs == vs[..i + 1] + vs[i + 1..];
  }

  /** The loop of pk_encode: every value, one after the other, from `bseek` on. */
  method EncodeInto(argv: seq<Value>, buffer: array<Byte>, bseek: nat) returns (next: nat)
    requires AllStorable(argv) && bseek + |Encode(argv)| <= buffer.Length
    modifies buffer
    ensures next == bseek + |Encode(argv)| && Written(buffer[..], old(buffer[..]), bseek, Encode(argv))
  {
    hide Encode, EncodeValue;
    next := bseek;
    var i := 0;
    EncodeNothing(argv);
    while i < |argv|
      invariant 0 <= i <= |argv|
      invariant next == bseek + |Encode(argv[..i])|
      invariant Written(buffer[..], old(buffer[..]), bseek, Encode(argv[..i]))
    {
      EncodeNext(argv, i);
      ghost var before := buffer[..];
      next := EncodeValueInto(buffer, next, argv[i]);
      WrittenTwice(old(buffer[..]), before, buffer[..], bseek, Encode(argv[..i]), EncodeValue(argv[i]));
      i := i + 1;
    }
    assert argv[..i] == argv;
  }

  lemma EncodeNothing(vs: seq<Value>)
    ensures Encode(vs[..0]) == []
  {
  }

  /** pk_encode_size is exact: the reserved bytes plus what pk_encode writes. */
  method PkEncodeSize(argv: seq<Value>, reserved: nat) returns (required: nat)
    requires AllStorable(argv)
    ensures required == reserved + |Encode(argv)|
  {
    hide Encode, NBytesNeeded, BigEndian;
    required := reserved;
    var i := 0;
    EncodeNothing(argv);
    while i < |argv|
      invariant 0 <= i <= |argv|
      invariant required == reserved + |Encode(argv[..i])|
    {
      EncodeNext(argv, i);
      match argv[i] {
        case Integer(n) =>
          if n == INT64_MIN {
            required := required + 1;
          } else {
            var val := n;
            if val < 0 { val := -val; }
            var nbytes := NBytesNeeded(val);
            required := required + 1 + nbytes;
          }
        case Float(_) => required := required + 1 + 8;
        case Text(t) =>
          var nbytes := NBytesNeeded(|t|);
          required := required + 1 + |t| + nbytes;
        case Blob(b) =>
          var nbytes := NBytesNeeded(|b|);
          required := required + 1 + |b| + nbytes;
        case Null => required := required + 1;
      }
      i := i + 1;
    }
    assert argv[..i] == argv;
  }

  /** pk_encode_prikey: into the caller's buffer when the key fits it, else into a new one. */
  method PkEncodePrikey(argv: seq<Value>, b: array<Byte>) returns (buffer: array<Byte>, blen: nat)
    requires AllStorable(argv)
    modifies b
    ensures buffer == b || fresh(buffer)
    ensures blen <= buffer.Length && buffer[..blen] == EncodePrikey(argv)
    ensures buffer == b <==> |EncodePrikey(argv)| <= b.Length
  {
    hide Encode;
    blen := PkEncodeSize(argv, 1);
    buffer := b;
    if blen > b.Length { buffer := new Byte[blen]; }
    var bseek := PkEncodeU8(buffer, 0, |argv| % 256);
    ghost var before := buffer[..];
    bseek := EncodeInto(argv, buffer, bseek);
    assert before[..1] == [|argv| % 256];
    assert buffer[..blen] == before[..1] + Encode(argv);
  }

  // ---------- reading from a buffer ----------

  lemma AsInt64Shift(x: nat, b: Byte)
    ensures AsInt64(256 * AsInt64(x) + b) == AsInt64(256 * x + b)
  {
    var k, m := x / 0x1_0000_0000_0000_0000, x % 0x1_0000_0000_0000_0000;
    var c := if m >= 0x8000_0000_0000_0000 then k + 1 else k;
    assert AsInt64(x) == x - c * 0x1_0000_0000_0000_0000;
    AsInt64Period(256 * x + b, -256 * c);
    assert 256 * x + b + (-256 * c) * 0x1_0000_0000_0000_0000 == 256 * AsInt64(x) + b;
  }

  lemma AsInt64Period(x: int, k: int)
    ensures AsInt64(x + k * 0x1_0000_0000_0000_0000) == AsInt64(x)
  {
  }

  lemma IntAtNext(buffer: Bytes, seek: nat, i: nat)
    requires seek + i < |buffer|
    ensures IntAt(buffer, seek, i + 1) == AsInt64(256 * IntAt(buffer, seek, i) + buffer[seek + i])
  {
    hide AsInt64;
    var s := buffer[seek..seek + (i + 1)];
    assert s[..i] == buffer[seek..seek + i] && s[i] == buffer[seek + i];
    AsInt64Shift(FromBigEndian(buffer[seek..seek + i]), buffer[seek + i]);
  }

  /** pk_decode_int64, the loop that shifts in one byte after the other. */
  method PkDecodeInt64(buffer: Bytes, seek: nat, nbytes: nat) returns (value: Int64, next: nat)
    requires seek + nbytes <= |buffer|
    ensures value == IntAt(buffer, seek, nbytes) && next == seek + nbytes
  {
    value, next := 0, seek;
    assert IntAt(buffer, seek, 0) == 0;
    hide IntAt, AsInt64;
    var i := 0;
    while i < nbytes
      invariant 0 <= i <= nbytes && next == seek + i
      invariant value == IntAt(buffer, seek, i)
    {
      IntAtNext(buffer, seek, i);
      value := AsInt64(256 * value + buffer[next]);
      next := next + 1;
      i := i + 1;
    }
  }

  /** The bit pattern is the same, signed or not. */
  lemma AsInt64Bits(x: int)
    ensures AsInt64(x) % 0x1_0000_0000_0000_0000 == x % 0x1_0000_0000_0000_0000
  {
  }

  /** pk_decode_double, and the sign that the type byte keeps apart. */
  method PkDecodeDouble(buffer: Bytes, seek: nat, negative: bool) returns (r: Option<(Value, nat)>)
    ensures r == DecodeDouble(buffer, seek, negative)
  {
    if seek + 8 > |buffer| { return None; }
    var value: int, next := PkDecodeInt64(buffer, seek, 8);
    AsInt64Bits(FromBigEndian(buffer[seek..seek + 8]));
    hide FromBigEndian, AsInt64;
    var bits := value % 0x1_0000_0000_0000_0000;
    return Some((DoubleValue(if negative then FlipSign(bits) else bits), next));
  }

  method PkDecodeInteger(buffer: Bytes, seek: nat, nbytes: nat, negative: bool) returns (r: Option<(Value, nat)>)
    ensures r == DecodeInteger(buffer, seek, nbytes, negative)
  {
    if seek + nbytes > |buffer| { return None; }
    var value: int, next := PkDecodeInt64(buffer, seek, nbytes);
    return Some((Integer(AsInt64(if negative then -value else value)), next));
  }

  /** A length, and then pk_decode_data. */
  method PkDecodeData(buffer: Bytes, seek: nat, nbytes: nat) returns (r: Option<(Bytes, nat)>)
    ensures r == DecodeData(buffer, seek, nbytes)
  {
    if seek + nbytes > |buffer| { return None; }
    var length, next := PkDecodeInt64(buffer, seek, nbytes);
    if length < 0 || length >= 0x8000_0000 || next + length > |buffer| { return None; }
    return Some((buffer[next..next + length], next + length));
  }

  /** One turn of the pk_decode loop. */
  method PkDecodeValue(buffer: Bytes, seek: nat) returns (r: Option<(Value, nat)>)
    ensures r == DecodeValue(buffer, seek)
  {
    hide DecodeDouble, DecodeInteger, DecodeData;
    if seek >= |buffer| { return None; }
    var code, nbytes, bseek := buffer[seek] % 8, buffer[seek] / 8, seek + 1;
    match code {
      case 6 => r := Some((Integer(INT64_MIN), bseek));
      case 0 => r := PkDecodeInteger(buffer, bseek, nbytes, true);
      case 1 => r := PkDecodeInteger(buffer, bseek, nbytes, false);
      case 7 => r := PkDecodeDouble(buffer, bseek, true);
      case 2 => r := PkDecodeDouble(buffer, bseek, false);
      case 5 => r := Some((Null, bseek));
      case _ =>
        var d := PkDecodeData(buffer, bseek, nbytes);
        if d.None? { return None; }
        r := Some((if code == TYPE_TEXT then Text(d.value.0) else Blob(d.value.0), d.value.1));
    }
  }

  /** pk_decode over `count` values; `None` where the C code would leave the buffer. */
  method PkDecode(buffer: Bytes, seek: nat, count: nat) returns (r: Option<(seq<Value>, nat)>)
    ensures r == Decode(buffer, seek, count)
  {
    hide DecodeValue;
    var bseek, values := seek, [];
    var i := 0;
    ghost var whole := Decode(buffer, seek, count);
    if whole.Some? { assert [] + whole.value.0 == whole.value.0; }
    while i < count
      invariant 0 <= i <= count && |values| == i
      invariant Decode(buffer, seek, count) ==
        match Decode(buffer, bseek, count - i) case None => None case Some(s) => Some((values + s.0, s.1))
    {
      var d := PkDecodeValue(buffer, bseek);
      if d.None? { return None; }
      ghost var rest := Decode(buffer, d.value.1, count - i - 1);
      if rest.Some? { assert values + ([d.value.0] + rest.value.0) == (values + [d.value.0]) + rest.value.0; }
      values := values + [d.value.0];
      bseek := d.value.1;
      i := i + 1;
    }
    assert values + [] == values;
    return Some((values, bseek));
  }
}
