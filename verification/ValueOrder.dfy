/**
 Which of two values `Compare` puts first: numbers by what they stand for, texts and blobs by their first
 difference.
 */
module ValueOrder {
  import opened Values

  // ---------- numbers ----------

  function Pow2(n: nat): (r: nat)
    ensures r >= 1
  {
    if n == 0 then 1 else 2 * Pow2(n - 1)
  }

  const FRACTION: int := 0x10_0000_0000_0000

  /**
   A finite magnitude in units of the least positive double: the fraction alone in the subnormal range,
   and otherwise with its leading 1, shifted by the exponent.
   */
  function Units(magnitude: int): (r: int)
    requires 0 <= magnitude
    ensures r >= 0
  {
    var exponent, fraction := magnitude / FRACTION, magnitude % FRACTION;
    if exponent == 0 then fraction else (FRACTION + fraction) * Pow2(exponent - 1)
  }

  predicate Finite(bits: DoubleBits) {
    Magnitude(bits) < INFINITY_BITS
  }

  /** A double is `Scaled` times 2 to the power of -1074. */
  function Scaled(bits: DoubleBits): int
    requires Finite(bits)
  {
    if bits >= SIGN_BIT then -Units(Magnitude(bits)) else Units(Magnitude(bits))
  }

  /** The order of the doubles: the infinities outside, and between them the numbers. */
  predicate DoubleLess(a: DoubleBits, b: DoubleBits) {
    if Finite(a) && Finite(b) then Scaled(a) < Scaled(b)
    else if Finite(a) then b < SIGN_BIT
    else if Finite(b) then a >= SIGN_BIT
    else a >= SIGN_BIT > b
  }

  lemma UnitsStep(m: int)
    requires 0 <= m
    ensures Units(m) < Units(m + 1)
  {
    var e, f := m / FRACTION, m % FRACTION;
    if f + 1 < FRACTION {
      assert (m + 1) / FRACTION == e && (m + 1) % FRACTION == f + 1;
      if e > 0 { assert (FRACTION + f + 1) * Pow2(e - 1) == (FRACTION + f) * Pow2(e - 1) + Pow2(e - 1); }
    } else {
      assert (m + 1) / FRACTION == e + 1 && (m + 1) % FRACTION == 0;
      if e > 0 { assert (FRACTION + 0) * Pow2(e) == (FRACTION + f) * Pow2(e - 1) + Pow2(e - 1); }
    }
  }

  lemma {:induction false} UnitsGrow(a: int, b: int)
    requires 0 <= a < b
    ensures Units(a) < Units(b)
    decreases b - a
  {
    UnitsStep(b - 1);
    if a < b - 1 { UnitsGrow(a, b - 1); }
  }

  /** The bit patterns are compared as the numbers they stand for; the two zeros are equal. */
  lemma DoublesAreOrdered(a: DoubleBits, b: DoubleBits)
    ensures Compare(Float(a), Float(b)) < 0 <==> DoubleLess(a, b)
  {
    var x, y := Magnitude(a), Magnitude(b);
    if x < y { UnitsGrow(x, y); }
    if y < x { UnitsGrow(y, x); }
    if 0 < x { UnitsGrow(0, x); }
    if 0 < y { UnitsGrow(0, y); }
    assert Units(0) == 0;
    hide Units;
  }

  /** 1.0, 1.5, 2.0 and the least positive double, in these units. */
  lemma ExampleDoubles()
    ensures Scaled(1) == 1
    ensures Scaled(0x3FF0_0000_0000_0000) == Pow2(1074)
    ensures Scaled(0x3FF8_0000_0000_0000) == 3 * Pow2(1073)
    ensures Scaled(0x4000_0000_0000_0000) == 2 * Pow2(1074)
  {
    ShiftPow(52, 1022);
    ShiftPow(52, 1023);
    ShiftPow(51, 1022);
    assert Pow2(52) == FRACTION && Pow2(51) * 2 == FRACTION by { SmallPowers(); }
    assert 0x3FF0_0000_0000_0000 / FRACTION == 1023 && 0x3FF0_0000_0000_0000 % FRACTION == 0;
    assert 0x3FF8_0000_0000_0000 / FRACTION == 1023 && 0x3FF8_0000_0000_0000 % FRACTION == 0x8_0000_0000_0000;
    assert 0x4000_0000_0000_0000 / FRACTION == 1024 && 0x4000_0000_0000_0000 % FRACTION == 0;
    assert Pow2(1075) == 2 * Pow2(1074);
    hide Pow2;
  }

  lemma {:induction false} ShiftPow(a: nat, b: nat)
    ensures Pow2(a) * Pow2(b) == Pow2(a + b)
  {
    if a > 0 {
      ShiftPow(a - 1, b);
      assert Pow2(a) * Pow2(b) == 2 * (Pow2(a - 1) * Pow2(b));
    }
  }

  lemma SmallPowers()
    ensures Pow2(51) * 2 == FRACTION && Pow2(52) == FRACTION
  {
    assert Pow2(10) == 1024;
    ShiftPow(10, 10);
    ShiftPow(20, 20);
    ShiftPow(40, 10);
    assert Pow2(51) == 2 * Pow2(50) && Pow2(52) == 2 * Pow2(51);
  }

  // ---------- texts and blobs ----------

  /** The byte a C string shows at `k`: 0 at its end. */
  function CharAt(t: Bytes, k: nat): Byte {
    if k < |t| then t[k] else 0
  }

  /** Up to `k` the two texts are the same and have not ended, and there `a` has the smaller byte. */
  predicate TextDiffers(a: Bytes, b: Bytes, k: nat) {
    k <= |a| && k <= |b| && a[..k] == b[..k] && 0 !in a[..k] && CharAt(a, k) < CharAt(b, k)
  }

  ghost predicate TextLess(a: Bytes, b: Bytes) {
    exists k: nat :: TextDiffers(a, b, k)
  }

  /** Up to `k` the two blobs are the same, and there `a` ends before `b` or has the smaller byte. */
  predicate BlobDiffers(a: Bytes, b: Bytes, k: nat) {
    k <= |a| && k < |b| && a[..k] == b[..k] && (k == |a| || a[k] < b[k])
  }

  ghost predicate BlobLess(a: Bytes, b: Bytes) {
    exists k: nat :: BlobDiffers(a, b, k)
  }

  lemma {:induction false} FirstCharDecides(a: Bytes, b: Bytes, k: nat)
    requires TextDiffers(a, b, k)
    ensures StrCmp(a, b) < 0
    decreases k
  {
    if k > 0 {
      assert a[..k][0] == a[0] && b[..k][0] == b[0] && a[0] in a[..k];
      assert a[1..][..k - 1] == a[..k][1..] == b[..k][1..] == b[1..][..k - 1];
      FirstCharDecides(a[1..], b[1..], k - 1);
    }
  }

  lemma {:induction false} FirstChar(a: Bytes, b: Bytes) returns (k: nat)
    requires StrCmp(a, b) < 0
    ensures TextDiffers(a, b, k)
    decreases |a|
  {
    k := 0;
    if CharAt(a, 0) == CharAt(b, 0) {
      var j := FirstChar(a[1..], b[1..]);
      k := j + 1;
      assert a[..k] == [a[0]] + a[1..][..j] && b[..k] == [b[0]] + b[1..][..j];
    }
  }

  lemma {:induction false} FirstByteDecides(a: Bytes, b: Bytes, k: nat)
    requires BlobDiffers(a, b, k)
    ensures BlobCmp(a, b) < 0
    decreases k
  {
    if k > 0 {
      assert a[..k][0] == a[0] && b[..k][0] == b[0];
      assert a[1..][..k - 1] == a[..k][1..] == b[..k][1..] == b[1..][..k - 1];
      FirstByteDecides(a[1..], b[1..], k - 1);
    }
  }

  lemma {:induction false} FirstByte(a: Bytes, b: Bytes) returns (k: nat)
    requires BlobCmp(a, b) < 0
    ensures BlobDiffers(a, b, k)
    decreases |a|
  {
    k := 0;
    if a != [] && a[0] == b[0] {
      var j := FirstByte(a[1..], b[1..]);
      k := j + 1;
      assert a[..k] == [a[0]] + a[1..][..j] && b[..k] == [b[0]] + b[1..][..j];
    }
  }

  lemma TextsAreOrdered(a: Bytes, b: Bytes)
    ensures Compare(Text(a), Text(b)) < 0 <==> TextLess(a, b)
  {
    if StrCmp(a, b) < 0 {
      var k := FirstChar(a, b);
    } else if TextLess(a, b) {
      var k: nat :| TextDiffers(a, b, k);
      FirstCharDecides(a, b, k);
    }
  }

  lemma BlobsAreOrdered(a: Bytes, b: Bytes)
    ensures Compare(Blob(a), Blob(b)) < 0 <==> BlobLess(a, b)
  {
    if BlobCmp(a, b) < 0 {
      var k := FirstByte(a, b);
    } else if BlobLess(a, b) {
      var k: nat :| BlobDiffers(a, b, k);
      FirstByteDecides(a, b, k);
    }
  }

  // ---------- all values ----------

  /** NULL, BLOB, TEXT, FLOAT, INTEGER, from the least to the greatest. */
  function Rank(v: Value): int {
    match v
    case Null => 0
    case Blob(_) => 1
    case Text(_) => 2
    case Float(_) => 3
    case Integer(_) => 4
  }

  /** The order of values, type by type. */
  ghost predicate Less(a: Value, b: Value) {
    match (a, b)
    case (Integer(i), Integer(j)) => i < j
    case (Float(x), Float(y)) => DoubleLess(x, y)
    case (Text(t), Text(u)) => TextLess(t, u)
    case (Blob(t), Blob(u)) => BlobLess(t, u)
    case _ => Rank(a) < Rank(b)
  }

  /** What the comparison says is this order and not its reverse. */
  lemma CompareIsOrder(a: Value, b: Value)
    ensures Compare(a, b) < 0 <==> Less(a, b)
    ensures Compare(a, b) > 0 <==> Less(b, a)
  {
    CompareLaws(a, b);
    match (a, b)
    case (Float(x), Float(y)) => DoublesAreOrdered(x, y); DoublesAreOrdered(y, x);
    case (Text(t), Text(u)) => TextsAreOrdered(t, u); TextsAreOrdered(u, t);
    case (Blob(t), Blob(u)) => BlobsAreOrdered(t, u); BlobsAreOrdered(u, t);
    case _ =>
  }

  /** A text before another, one that is its beginning, one that only a NUL ends, and values of other types. */
  lemma ExampleOrder()
    ensures Less(Text([97]), Text([98])) && Less(Text([97]), Text([97, 98])) && Less(Text([97, 0, 99]), Text([97, 1]))
    ensures Less(Blob([97]), Blob([97, 0])) && Less(Blob([97, 0]), Blob([98]))
    ensures Less(Float(0xBFF0_0000_0000_0000), Float(1)) && Less(Float(1), Float(0x3FF0_0000_0000_0000))
    ensures Less(Null, Blob([255])) && Less(Blob([255]), Text([])) && Less(Text([255]), Float(0xBFF0_0000_0000_0000))
    ensures Less(Float(0x3FF0_0000_0000_0000), Integer(-1)) && Less(Integer(-1), Integer(0))
  {
    assert TextDiffers([97], [98], 0) && TextDiffers([97], [97, 98], 1) && TextDiffers([97, 0, 99], [97, 1], 1);
    assert BlobDiffers([97], [97, 0], 1) && BlobDiffers([97, 0], [98], 0);
    DoublesAreOrdered(0xBFF0_0000_0000_0000, 1);
    DoublesAreOrdered(1, 0x3FF0_0000_0000_0000);
    hide DoubleLess;
  }
}
