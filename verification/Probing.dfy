/** The arithmetic behind khash: rounding up to a power of two, and triangular probing. */
module Probing {
  // ---------- powers of two ----------

  predicate IsPow2(n: nat) {
    n == 1 || (n > 1 && n % 2 == 0 && IsPow2(n / 2))
  }

  /** The least power of two that is at least `n`. */
  function RoundUp(n: nat): (r: nat)
    ensures IsPow2(r) && n <= r && (n >= 2 ==> r < 2 * n)
    decreases n
  {
    if n <= 1 then 1 else 2 * RoundUp((n + 1) / 2)
  }

  lemma {:induction false} RoundUpIsLeast(n: nat, p: nat)
    requires IsPow2(p) && n <= p
    ensures RoundUp(n) <= p
    decreases p
  {
    if n > 1 { RoundUpIsLeast((n + 1) / 2, p / 2); }
  }

  /** Just below a power of two, and just above it. */
  lemma RoundUpAround(n: nat)
    requires IsPow2(n) && n >= 4
    ensures RoundUp(n - 1) == n && RoundUp(n + 1) == 2 * n
  {
    hide *;
    Pow2Double(n);
    RoundUpIs(n - 1, n);
    RoundUpIs(n + 1, 2 * n);
  }

  lemma RoundUpIs(x: nat, p: nat)
    requires IsPow2(p) && x <= p < 2 * x
    ensures RoundUp(x) == p
  {
    hide IsPow2;
    var r := RoundUp(x);
    hide RoundUp;
    RoundUpIsLeast(x, p);
    Pow2Between(p, r);
  }

  lemma Pow2Double(n: nat)
    requires IsPow2(n)
    ensures IsPow2(2 * n)
  {
    assert 2 * n / 2 == n;
  }

  /** No power of two lies strictly between one and its double. */
  lemma {:induction false} Pow2Between(n: nat, p: nat)
    requires IsPow2(n) && IsPow2(p) && n < 2 * p && p <= n
    ensures p == n
    decreases n
  {
    if n > 1 && p > 1 { Pow2Between(n / 2, p / 2); }
  }

  lemma {:induction false} Pow2Divides(n: nat)
    requires IsPow2(n) && n >= 16
    ensures n % 16 == 0
  {
    assert IsPow2(n / 2) && IsPow2(n / 2 / 2) && IsPow2(n / 2 / 2 / 2) && IsPow2(n / 2 / 2 / 2 / 2);
  }

  /** kroundup32: smear the highest bit of x - 1 over all lower ones, and add one. */
  function Smear(x: bv32): bv32 {
    var a := x | (x >> 1);
    var b := a | (a >> 2);
    var c := b | (b >> 4);
    var d := c | (c >> 8);
    d | (d >> 16)
  }

  function Kroundup32(x: bv32): bv32 {
    Smear(x - 1) + 1
  }

  /** On machine words: a power of two, at least x, and less than twice x; zero, and what has no such power, give 0. */
  lemma Kroundup32RoundsUp(x: bv32)
    ensures var y := Kroundup32(x);
      && y & (y - 1) == 0
      && (1 <= x <= 0x8000_0000 ==> y != 0 && x <= y && (y >> 1) < x)
      && (x == 0 || x > 0x8000_0000 ==> y == 0)
  {
  }

  // ---------- triangular steps ----------

  function Triangle(s: nat): nat {
    if s == 0 then 0 else Triangle(s - 1) + s
  }

  lemma {:induction false} TriangleTwice(s: nat)
    ensures 2 * Triangle(s) == s * (s + 1)
  {
    if s > 0 {
      TriangleTwice(s - 1);
      assert s * (s + 1) == (s - 1) * s + 2 * s;
    }
  }

  /** Where the probe for hash `h` is after `s` steps in a table of `n`. */
  function Probe(h: nat, s: nat, n: nat): (i: nat)
    requires n > 0
    ensures i < n
  {
    (h + Triangle(s)) % n
  }

  lemma ModStep(a: nat, b: nat, n: nat)
    requires n > 0
    ensures (a + b) % n == (a % n + b) % n
  {
    var q := a / n;
    assert a + b == (a % n + b) + q * n;
    ModShift(a % n + b, q, n);
  }

  lemma ModShift(x: nat, q: nat, n: nat)
    requires n > 0
    ensures (x + q * n) % n == x % n
  {
    var k, r := x / n, x % n;
    assert x + q * n == (k + q) * n + r by {
      assert x == k * n + r;
      assert (k + q) * n == k * n + q * n;
    }
    ModUnique(x + q * n, k + q, r, n);
  }

  lemma ModUnique(y: int, k: int, r: int, n: nat)
    requires n > 0 && 0 <= r < n && y == k * n + r
    ensures y % n == r
  {
    var d := k - y / n;
    assert y == (y / n) * n + y % n;
    assert d * n == k * n - (y / n) * n;
    MulApart(d, n);
  }

  lemma MulApart(k: int, n: nat)
    ensures k >= 1 ==> k * n >= n
    ensures k <= -1 ==> k * n + n <= 0
  {
    if k >= 1 { assert k * n == n + (k - 1) * n; }
    if k <= -1 { assert k * n + n == (k + 1) * n; }
  }

  /** One step of the probe, as the table takes it. */
  lemma ProbeStep(h: nat, s: nat, n: nat)
    requires n > 0
    ensures Probe(h, s + 1, n) == (Probe(h, s, n) + (s + 1)) % n
    ensures Probe(h, 0, n) == h % n
  {
    ModStep(h + Triangle(s), s + 1, n);
  }

  // ---------- the steps cover the table ----------

  /** An odd factor does not help to reach a power of two. */
  lemma {:induction false} OddFactor(a: int, b: int, n: nat, q: int)
    requires IsPow2(n) && a % 2 == 1 && a * b == q * n
    ensures b % n == 0
    decreases n
  {
    if n > 1 {
      EvenFactor(a, b, q * (n / 2)) by {
        assert q * n == 2 * (q * (n / 2));
      }
      assert a * b == 2 * (a * (b / 2)) by {
        assert b == 2 * (b / 2);
      }
      assert q * n == 2 * (q * (n / 2));
      OddFactor(a, b / 2, n / 2, q);
      Doubled(b, n);
    }
  }

  lemma EvenFactor(a: int, b: int, k: int)
    requires a % 2 == 1 && a * b == 2 * k
    ensures b % 2 == 0
  {
    var c := a / 2;
    assert a == 2 * c + 1;
    assert a * b == 2 * (c * b) + b;
    assert b == 2 * (k - c * b);
  }

  lemma Doubled(b: int, n: nat)
    requires n > 1 && n % 2 == 0 && b % 2 == 0 && (b / 2) % (n / 2) == 0
    ensures b % n == 0
  {
    var m, c := n / 2, (b / 2) / (n / 2);
    assert b / 2 == c * m;
    assert b == c * n by { assert c * n == 2 * (c * m); }
    Multiple(c, n);
  }

  lemma Multiple(c: int, n: nat)
    requires n > 0
    ensures (c * n) % n == 0
  {
    ModUnique(c * n, c, 0, n);
  }

  lemma SmallMultiple(b: int, n: nat)
    requires n > 0 && b % n == 0 && 0 <= b < n
    ensures b == 0
  {
  }

  lemma SameRemainder(x: nat, y: nat, n: nat) returns (q: int)
    requires n > 0 && x % n == y % n && x <= y
    ensures y - x == q * n
  {
    q := y / n - x / n;
    assert y == (y / n) * n + y % n && x == (x / n) * n + x % n;
    assert (y / n) * n - (x / n) * n == q * n;
  }

  lemma {:induction false} TriangleGrows(a: nat, b: nat)
    requires a <= b
    ensures Triangle(a) <= Triangle(b)
    decreases b
  {
    if a < b { TriangleGrows(a, b - 1); }
  }

  /** What two probes that meet have in common. */
  lemma MeetingProbes(h: nat, a: nat, b: nat, n: nat) returns (q: int)
    requires IsPow2(n) && a < b && Probe(h, a, n) == Probe(h, b, n)
    ensures (b - a) * (b + a + 1) == q * (2 * n)
  {
    TriangleGrows(a, b);
    q := SameRemainder(h + Triangle(a), h + Triangle(b), n);
    TriangleTwice(a);
    TriangleTwice(b);
    hide Triangle, IsPow2, Probe;
    SquareDifference(a, b);
    assert q * (2 * n) == 2 * (q * n);
  }

  lemma SquareDifference(a: nat, b: nat)
    ensures (b - a) * (b + a + 1) == b * (b + 1) - a * (a + 1)
  {
    assert (b - a) * (b + a + 1) == b * (b + a + 1) - a * (b + a + 1);
    assert b * (b + a + 1) == b * (b + 1) + b * a;
    assert a * (b + a + 1) == a * (a + 1) + a * b;
  }

  /** Two numbers below a power of two, one of them odd, do not multiply to a multiple of it. */
  lemma NoSmallProduct(x: int, y: int, m: nat, q: int)
    requires IsPow2(m) && 0 < x < m && 0 < y < m && x % 2 != y % 2
    ensures x * y != q * m
  {
    hide IsPow2;
    if x * y == q * m && x % 2 == 1 {
      OddFactor(x, y, m, q);
      SmallMultiple(y, m);
    } else if x * y == q * m {
      assert y * x == q * m;
      OddFactor(y, x, m, q);
      SmallMultiple(x, m);
    }
  }

  lemma Parity(a: nat, b: nat)
    requires a < b
    ensures (b - a) % 2 != (b + a + 1) % 2
  {
    assert b + a + 1 == (b - a) + 2 * a + 1;
  }

  /** The first probes all look at different slots. */
  lemma ProbesDiffer(h: nat, a: nat, b: nat, n: nat)
    requires IsPow2(n) && a < b && b + a + 1 < 2 * n
    ensures Probe(h, a, n) != Probe(h, b, n)
  {
    Pow2Double(n);
    hide IsPow2, Probe;
    if Probe(h, a, n) == Probe(h, b, n) {
      Parity(a, b);
      var q := MeetingProbes(h, a, b, n);
      NoSmallProduct(b - a, b + a + 1, 2 * n, q);
    }
  }

  /** The probe is back at its start after 2n - 1 steps, and not before. */
  lemma FirstReturn(h: nat, s: nat, n: nat)
    requires IsPow2(n) && s > 0
    ensures s < 2 * n - 1 ==> Probe(h, s, n) != Probe(h, 0, n)
    ensures s == 2 * n - 1 ==> Probe(h, s, n) == Probe(h, 0, n)
  {
    if s < 2 * n - 1 {
      ProbesDiffer(h, 0, s, n);
    } else if s == 2 * n - 1 {
      TriangleTwice(s);
      assert 2 * Triangle(s) == 2 * (s * n) by { assert s * (s + 1) == 2 * (s * n); }
      ModShift(h, s, n);
    }
  }

  function Visited(h: nat, k: nat, n: nat): set<nat>
    requires n > 0
  {
    if k == 0 then {} else Visited(h, k - 1, n) + {Probe(h, k - 1, n)}
  }

  lemma {:induction false} VisitedAll(h: nat, k: nat, n: nat)
    requires IsPow2(n) && k <= n
    ensures |Visited(h, k, n)| == k
    ensures forall i :: i in Visited(h, k, n) ==> i < n && exists s :: 0 <= s < k && Probe(h, s, n) == i
    decreases k
  {
    if k > 0 {
      VisitedAll(h, k - 1, n);
      var p := Probe(h, k - 1, n);
      if p in Visited(h, k - 1, n) {
        var s :| 0 <= s < k - 1 && Probe(h, s, n) == p;
        ProbesDiffer(h, s, k - 1, n);
      }
    }
  }

  function Indices(n: nat): set<nat> {
    if n == 0 then {} else Indices(n - 1) + {n - 1}
  }

  lemma {:induction false} IndicesAll(n: nat)
    ensures |Indices(n)| == n && forall i: nat :: i in Indices(n) <==> i < n
  {
    if n > 0 { IndicesAll(n - 1); }
  }

  lemma SubsetOfSameSize(a: set<nat>, b: set<nat>, x: nat)
    requires a <= b && |a| == |b| && x in b
    ensures x in a
  {
    if x !in a {
      var rest := b - {x};
      assert a <= rest;
      SubsetSize(a, rest);
    }
  }

  lemma {:induction false} SubsetSize(a: set<nat>, b: set<nat>)
    requires a <= b
    ensures |a| <= |b|
    decreases a
  {
    if a != {} {
      var x :| x in a;
      SubsetSize(a - {x}, b - {x});
    }
  }

  /** Every slot is looked at within the first n probes. */
  lemma ProbesCover(h: nat, x: nat, n: nat) returns (s: nat)
    requires IsPow2(n) && x < n
    ensures s < n && Probe(h, s, n) == x
  {
    VisitedAll(h, n, n);
    IndicesAll(n);
    SubsetOfSameSize(Visited(h, n, n), Indices(n), x);
    s :| 0 <= s < n && Probe(h, s, n) == x;
  }
}
