/** SQLite values as the extension sees them, and the order `dbutils_value_compare` puts on them. */
module Values {

  type Byte = b: int | 0 <= b < 256
  type Bytes = seq<Byte>
  type Int64 = i: int | -0x8000_0000_0000_0000 <= i < 0x8000_0000_0000_0000

  const SIGN_BIT: int := 0x8000_0000_0000_0000
  const INFINITY_BITS: int := 0x7FF0_0000_0000_0000

  /** The magnitude part of the IEEE 754 bit pattern of a double. */
  function Magnitude(bits: int): int {
    if bits >= SIGN_BIT then bits - SIGN_BIT else bits
  }

  /** Bit patterns of doubles that SQLite can hold: it stores NaN as NULL. */
  type DoubleBits = b: int | 0 <= b < 2 * SIGN_BIT && Magnitude(b) <= INFINITY_BITS witness 0

  datatype Value =
    | Integer(i: Int64)
    | Float(bits: DoubleBits)
    | Text(text: Bytes)
    | Blob(blob: Bytes)
    | Null

  /** The fundamental type codes of sqlite3_value_type. */
  function TypeCode(v: Value): int {
    match v
    case Integer(_) => 1
    case Float(_) => 2
    case Text(_) => 3
    case Blob(_) => 4
    case Null => 5
  }

  /** A key that orders double bit patterns as the doubles themselves: sign and magnitude. */
  function DoubleKey(bits: DoubleBits): int {
    if bits >= SIGN_BIT then -Magnitude(bits) else bits
  }

  function Sign(i: int): int {
    if i < 0 then -1 else if i > 0 then 1 else 0
  }

  /** strcmp: both strings end at their first NUL byte. */
  function StrCmp(l: Bytes, r: Bytes): int
    decreases |l|
  {
    var lc := if l == [] then 0 else l[0];
    var rc := if r == [] then 0 else r[0];
    if lc != rc then lc - rc
    else if lc == 0 then 0
    else StrCmp(l[1..], r[1..])
  }

  /** memcmp over the common prefix, then the lengths. */
  function BlobCmp(l: Bytes, r: Bytes): int
    decreases |l|
  {
    if l == [] || r == [] then |l| - |r|
    else if l[0] != r[0] then l[0] - r[0]
    else BlobCmp(l[1..], r[1..])
  }

  /** `dbutils_value_compare` on two values; a lower type code is the greater value. */
  function Compare(l: Value, r: Value): int {
    if TypeCode(l) != TypeCode(r) then TypeCode(r) - TypeCode(l)
    else match l
      case Integer(i) => Sign(i - r.i)
      case Float(b) => Sign(DoubleKey(b) - DoubleKey(r.bits))
      case Text(t) => StrCmp(t, r.text)
      case Blob(b) => BlobCmp(b, r.blob)
      case Null => 0
  }

  /** The part of a text that strcmp looks at. */
  function BeforeNul(t: Bytes): Bytes {
    if t == [] || t[0] == 0 then [] else [t[0]] + BeforeNul(t[1..])
  }

  /** What `Compare` can tell apart: texts up to their first NUL, and no negative zero. */
  function Seen(v: Value): Value {
    match v
    case Text(t) => Text(BeforeNul(t))
    case Float(b) => if b == SIGN_BIT then Float(0) else v
    case _ => v
  }

  predicate Canonical(v: Value) {
    Seen(v) == v
  }

  lemma {:induction false} StrCmpLaws(a: Bytes, b: Bytes)
    ensures Sign(StrCmp(a, b)) == -Sign(StrCmp(b, a))
    ensures StrCmp(a, b) == 0 <==> BeforeNul(a) == BeforeNul(b)
    decreases |a|
  {
    if a != [] && b != [] && a[0] == b[0] && a[0] != 0 {
      StrCmpLaws(a[1..], b[1..]);
      assert BeforeNul(a)[1..] == BeforeNul(a[1..]);
      assert BeforeNul(b)[1..] == BeforeNul(b[1..]);
    } else if a != [] && a[0] != 0 {
      assert BeforeNul(a)[0] == a[0];
      if b != [] && b[0] != 0 { assert BeforeNul(b)[0] == b[0]; }
    } else if b != [] && b[0] != 0 {
      assert BeforeNul(b)[0] == b[0];
    }
  }

  lemma {:induction false} StrCmpTransitive(a: Bytes, b: Bytes, c: Bytes)
    requires StrCmp(a, b) >= 0 && StrCmp(b, c) >= 0
    ensures StrCmp(a, c) >= 0
    ensures StrCmp(a, b) > 0 || StrCmp(b, c) > 0 ==> StrCmp(a, c) > 0
    decreases |a|
  {
    if a != [] && b != [] && c != [] && a[0] == b[0] == c[0] && a[0] != 0 {
      StrCmpTransitive(a[1..], b[1..], c[1..]);
    }
  }

  lemma {:induction false} BlobCmpLaws(a: Bytes, b: Bytes)
    ensures Sign(BlobCmp(a, b)) == -Sign(BlobCmp(b, a))
    ensures BlobCmp(a, b) == 0 <==> a == b
    decreases |a|
  {
    if a != [] && b != [] && a[0] == b[0] {
      BlobCmpLaws(a[1..], b[1..]);
      assert a == [a[0]] + a[1..] && b == [b[0]] + b[1..];
    }
  }

  lemma {:induction false} BlobCmpTransitive(a: Bytes, b: Bytes, c: Bytes)
    requires BlobCmp(a, b) >= 0 && BlobCmp(b, c) >= 0
    ensures BlobCmp(a, c) >= 0
    ensures BlobCmp(a, b) > 0 || BlobCmp(b, c) > 0 ==> BlobCmp(a, c) > 0
    decreases |a|
  {
    if a != [] && b != [] && c != [] && a[0] == b[0] == c[0] {
      BlobCmpTransitive(a[1..], b[1..], c[1..]);
    }
  }

  /** Comparison is antisymmetric, and ties exactly the values it cannot tell apart. */
  lemma CompareLaws(a: Value, b: Value)
    ensures Sign(Compare(a, b)) == -Sign(Compare(b, a))
    ensures Compare(a, b) == 0 <==> Seen(a) == Seen(b)
  {
    if a.Text? && b.Text? { StrCmpLaws(a.text, b.text); }
    if a.Blob? && b.Blob? { BlobCmpLaws(a.blob, b.blob); }
  }

  /** Comparison is transitive, and strictly so when either step is strict. */
  lemma CompareTransitive(a: Value, b: Value, c: Value)
    requires Compare(a, b) >= 0 && Compare(b, c) >= 0
    ensures Compare(a, c) >= 0
    ensures Compare(a, b) > 0 || Compare(b, c) > 0 ==> Compare(a, c) > 0
  {
    if a.Text? && b.Text? && c.Text? { StrCmpTransitive(a.text, b.text, c.text); }
    if a.Blob? && b.Blob? && c.Blob? { BlobCmpTransitive(a.blob, b.blob, c.blob); }
  }

  /** Hence on canonical values the order is total and a tie means equality. */
  lemma CanonicalTie(a: Value, b: Value)
    requires Canonical(a) && Canonical(b)
    ensures Compare(a, b) == 0 <==> a == b
  {
    CompareLaws(a, b);
  }
}
