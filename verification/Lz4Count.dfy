/** LZ4_count and LZ4_NbCommonBytes: match length by 8-byte words, equal to the common prefix. */
module Lz4Count {
  import opened Values

  const STEPSIZE: nat := 8

  /** How many bytes from `a` and `b` on are equal before `a` reaches `limit`. */
  function CommonPrefix(s: Bytes, a: nat, b: nat, limit: nat): (n: nat)
    requires b <= a <= limit <= |s|
    ensures a + n <= limit
    decreases limit - a
  {
    if a < limit && s[a] == s[b] then 1 + CommonPrefix(s, a + 1, b + 1, limit) else 0
  }

  /** It is the one length whose bytes agree and that cannot be extended. */
  lemma {:induction false} CommonPrefixIs(s: Bytes, a: nat, b: nat, limit: nat, n: nat)
    requires b <= a <= limit <= |s| && a + n <= limit && Same(s, a, b, n)
    requires a + n < limit ==> s[a + n] != s[b + n]
    ensures CommonPrefix(s, a, b, limit) == n
    decreases n
  {
    if n > 0 {
      assert s[a] == s[a..a + n][0] == s[b..b + n][0] == s[b];
      assert s[a + 1..a + n] == s[a..a + n][1..] == s[b..b + n][1..] == s[b + 1..b + n];
      CommonPrefixIs(s, a + 1, b + 1, limit, n - 1);
    }
  }

  // ---------- words ----------

  /** A byte in the low bits of a word, nibble by nibble. */
  function Lane(b: Byte): bv64 {
    (((b / 16) as bv4 as bv64) << 4) | ((b % 16) as bv4 as bv64)
  }

  predicate IsLane(x: bv64) {
    x & 0xFF == x
  }

  lemma Nibbles(x: bv4, y: bv4, z: bv4, w: bv4)
    ensures IsLane((x as bv64 << 4) | (y as bv64))
    ensures ((x as bv64 << 4) | (y as bv64)) == ((z as bv64 << 4) | (w as bv64)) ==> x == z && y == w
  {
  }

  lemma NibbleInjective(a: int, b: int)
    requires 0 <= a < 16 && 0 <= b < 16 && a as bv4 == b as bv4
    ensures a == b
  {
  }

  lemma LaneInjective(a: Byte, b: Byte)
    ensures IsLane(Lane(a)) && IsLane(Lane(b))
    ensures Lane(a) == Lane(b) <==> a == b
  {
    hide IsLane;
    var x: int, y: int := a, b;
    Nibbles((x / 16) as bv4, (x % 16) as bv4, (y / 16) as bv4, (y % 16) as bv4);
    Nibbles((y / 16) as bv4, (y % 16) as bv4, (x / 16) as bv4, (x % 16) as bv4);
    if Lane(a) == Lane(b) {
      NibbleInjective(x / 16, y / 16);
      NibbleInjective(x % 16, y % 16);
    }
  }

  function Join(low: bv64, high: bv64): bv64 {
    low | (high << 8)
  }

  /** `n` bytes from `at` on, the first one lowest: LZ4_read_ARCH on a little-endian machine when `n` is 8. */
  function ReadWord(s: Bytes, at: nat, n: nat): bv64
    requires n <= 8 && at + n <= |s|
    decreases n
  {
    if n == 0 then 0 else Join(Lane(s[at]), ReadWord(s, at + 1, n - 1))
  }

  /** The word whose low `n` bytes are all ones. */
  function Mask(n: nat): bv64
    requires n <= 8
  {
    match n
    case 0 => 0
    case 1 => 0xFF
    case 2 => 0xFFFF
    case 3 => 0xFF_FFFF
    case 4 => 0xFFFF_FFFF
    case 5 => 0xFF_FFFF_FFFF
    case 6 => 0xFFFF_FFFF_FFFF
    case 7 => 0xFF_FFFF_FFFF_FFFF
    case _ => 0xFFFF_FFFF_FFFF_FFFF
  }

  /** How many of the `n` low bytes of a word are zero before the first that is not. */
  function ZeroBytes(w: bv64, n: nat): (z: nat)
    ensures z <= n
  {
    if n == 0 || w & 0xFF != 0 then 0 else 1 + ZeroBytes(w >> 8, n - 1)
  }

  predicate Fits(x: bv64, n: nat)
    requires n <= 8
  {
    x & Mask(n) == x
  }

  lemma JoinFits(a: bv64, x: bv64, n: nat)
    requires 1 <= n <= 8 && IsLane(a) && Fits(x, n - 1)
    ensures Fits(Join(a, x), n)
  {
  }

  lemma FitsMore(x: bv64, n: nat)
    requires n <= 7 && Fits(x, n)
    ensures Fits(x, 7)
  {
  }

  lemma {:induction false} WordFits(s: Bytes, at: nat, n: nat)
    requires n <= 8 && at + n <= |s|
    ensures Fits(ReadWord(s, at, n), n)
    decreases n
  {
    hide IsLane, Lane, Join;
    if n > 0 {
      hide Fits;
      WordFits(s, at + 1, n - 1);
      LaneInjective(s[at], s[at]);
      JoinFits(Lane(s[at]), ReadWord(s, at + 1, n - 1), n);
    }
  }

  function Differ(x: bv64, y: bv64): bv64 {
    x ^ y
  }

  /** The difference of two words: its low byte, and the rest. */
  lemma DifferLow(a: bv64, b: bv64, x: bv64, y: bv64)
    requires IsLane(a) && IsLane(b)
    ensures Differ(Join(a, x), Join(b, y)) & 0xFF == 0 <==> a == b
  {
  }

  lemma DifferRest(a: bv64, b: bv64, x: bv64, y: bv64)
    requires IsLane(a) && IsLane(b) && Fits(x, 7) && Fits(y, 7)
    ensures Differ(Join(a, x), Join(b, y)) >> 8 == Differ(x, y)
  {
  }

  lemma ZeroBytesStep(a: bv64, b: bv64, x: bv64, y: bv64, n: nat)
    requires IsLane(a) && IsLane(b) && Fits(x, 7) && Fits(y, 7) && n > 0
    ensures ZeroBytes(Differ(Join(a, x), Join(b, y)), n) == if a == b then 1 + ZeroBytes(Differ(x, y), n - 1) else 0
  {
    hide Differ, Join, IsLane, Fits;
    DifferLow(a, b, x, y);
    DifferRest(a, b, x, y);
  }

  /** From `a` and `b` on, `z` bytes agree, and the next one, within `n`, does not. */
  ghost predicate AgreesFor(s: Bytes, a: nat, b: nat, z: nat, n: nat)
    requires a + n <= |s| && b + n <= |s|
  {
    z <= n && s[a..a + z] == s[b..b + z] && (z < n ==> s[a + z] != s[b + z])
  }

  lemma AgreesForStep(s: Bytes, a: nat, b: nat, z: nat, n: nat)
    requires n > 0 && a + n <= |s| && b + n <= |s| && AgreesFor(s, a + 1, b + 1, z, n - 1)
    ensures s[a] == s[b] ==> AgreesFor(s, a, b, z + 1, n)
    ensures s[a] != s[b] ==> AgreesFor(s, a, b, 0, n)
  {
    if s[a] == s[b] { OneMore(s, a, b, z + 1); }
  }

  /** How many low bytes of two words agree. */
  function Agreeing(s: Bytes, a: nat, b: nat, n: nat): nat
    requires n <= 8 && a + n <= |s| && b + n <= |s|
  {
    ZeroBytes(Differ(ReadWord(s, a, n), ReadWord(s, b, n)), n)
  }

  lemma AgreeingStep(s: Bytes, a: nat, b: nat, n: nat)
    requires 1 <= n <= 8 && a + n <= |s| && b + n <= |s|
    ensures Agreeing(s, a, b, n) == if s[a] == s[b] then 1 + Agreeing(s, a + 1, b + 1, n - 1) else 0
  {
    hide Differ, Join, IsLane, Fits, Lane, ZeroBytes, ReadWord;
    WordStep(s, a, n);
    WordStep(s, b, n);
    LaneInjective(s[a], s[b]);
    ZeroBytesStep(Lane(s[a]), Lane(s[b]), ReadWord(s, a + 1, n - 1), ReadWord(s, b + 1, n - 1), n);
  }

  /** The zero low bytes of the difference of two words are the bytes on which they agree. */
  lemma {:induction false} AgreeingBytes(s: Bytes, a: nat, b: nat, n: nat)
    requires n <= 8 && a + n <= |s| && b + n <= |s|
    ensures AgreesFor(s, a, b, Agreeing(s, a, b, n), n)
    decreases n
  {
    hide Agreeing, AgreesFor;
    if n == 0 {
      AgreeingNone(s, a, b);
    } else {
      AgreeingStep(s, a, b, n);
      AgreeingBytes(s, a + 1, b + 1, n - 1);
      AgreesForStep(s, a, b, Agreeing(s, a + 1, b + 1, n - 1), n);
    }
  }

  lemma AgreeingNone(s: Bytes, a: nat, b: nat)
    requires a <= |s| && b <= |s|
    ensures AgreesFor(s, a, b, Agreeing(s, a, b, 0), 0)
  {
    hide Differ, ReadWord;
  }

  lemma WordStep(s: Bytes, at: nat, n: nat)
    requires 1 <= n <= 8 && at + n <= |s|
    ensures ReadWord(s, at, n) == Join(Lane(s[at]), ReadWord(s, at + 1, n - 1))
    ensures Fits(ReadWord(s, at + 1, n - 1), 7)
  {
    hide Join, Fits, Lane;
    WordFits(s, at + 1, n - 1);
    FitsMore(ReadWord(s, at + 1, n - 1), n - 1);
  }

  lemma OneMore(s: Bytes, a: nat, b: nat, z: nat)
    requires z > 0 && a + z <= |s| && b + z <= |s| && s[a] == s[b] && s[a + 1..a + z] == s[b + 1..b + z]
    ensures s[a..a + z] == s[b..b + z]
  {
    assert s[a..a + z] == [s[a]] + s[a + 1..a + z];
    assert s[b..b + z] == [s[b]] + s[b + 1..b + z];
  }

  const ONES: bv64 := 0x0101_0101_0101_0101

  function Count(kept: bv64): nat {
    ((kept * ONES) >> 56) as nat
  }

  /** LZ4_NbCommonBytes without a bit-scan instruction: mask, keep one bit a byte, and add up by multiplying. */
  function NbCommonBytes(val: bv64): nat
    requires val != 0
  {
    Count((val ^ (val - 1)) & (ONES - 1))
  }

  lemma CountsTo2()
    ensures Count(0x0) == 0 && Count(0x100) == 1 && Count(0x1_0100) == 2
  {
  }

  lemma CountsTo4()
    ensures Count(0x101_0100) == 3 && Count(0x1_0101_0100) == 4
  {
  }

  lemma CountsTo6()
    ensures Count(0x101_0101_0100) == 5 && Count(0x1_0101_0101_0100) == 6
  {
  }

  lemma CountsTo7()
    ensures Count(0x101_0101_0101_0100) == 7
  {
  }

  /** What the mask leaves for each place of the first non-zero byte. */
  function Kept(n: nat): bv64
    requires n <= 7
  {
    match n
    case 0 => 0x0
    case 1 => 0x100
    case 2 => 0x1_0100
    case 3 => 0x101_0100
    case 4 => 0x1_0101_0100
    case 5 => 0x101_0101_0100
    case 6 => 0x1_0101_0101_0100
    case _ => 0x101_0101_0101_0100
  }

  /** The zero bytes of a word, one mask at a time. */
  function FirstByte(w: bv64): nat {
    if w & 0xFF != 0 then 0
    else if w & 0xFF00 != 0 then 1
    else if w & 0xFF_0000 != 0 then 2
    else if w & 0xFF00_0000 != 0 then 3
    else if w & 0xFF_0000_0000 != 0 then 4
    else if w & 0xFF00_0000_0000 != 0 then 5
    else if w & 0xFF_0000_0000_0000 != 0 then 6
    else if w & 0xFF00_0000_0000_0000 != 0 then 7
    else 8
  }

  lemma LowHalf(w: bv64)
    ensures ZeroBytes(w, 8) ==
      if w & 0xFF != 0 then 0
      else if w & 0xFF00 != 0 then 1
      else if w & 0xFF_0000 != 0 then 2
      else if w & 0xFF00_0000 != 0 then 3
      else 4 + ZeroBytes(w >> 32, 4)
  {
    assert ZeroBytes(w, 8) == if w & 0xFF != 0 then 0 else 1 + ZeroBytes(w >> 8, 7);
    assert ZeroBytes(w >> 8, 7) == if w & 0xFF00 != 0 then 0 else 1 + ZeroBytes(w >> 16, 6);
    assert ZeroBytes(w >> 16, 6) == if w & 0xFF_0000 != 0 then 0 else 1 + ZeroBytes(w >> 24, 5);
    assert ZeroBytes(w >> 24, 5) == if w & 0xFF00_0000 != 0 then 0 else 1 + ZeroBytes(w >> 32, 4);
  }

  lemma HighHalf(w: bv64)
    ensures ZeroBytes(w >> 32, 4) ==
      if w & 0xFF_0000_0000 != 0 then 0
      else if w & 0xFF00_0000_0000 != 0 then 1
      else if w & 0xFF_0000_0000_0000 != 0 then 2
      else if w & 0xFF00_0000_0000_0000 != 0 then 3
      else 4
  {
    assert ZeroBytes(w >> 32, 4) == if w & 0xFF_0000_0000 != 0 then 0 else 1 + ZeroBytes(w >> 40, 3);
    assert ZeroBytes(w >> 40, 3) == if w & 0xFF00_0000_0000 != 0 then 0 else 1 + ZeroBytes(w >> 48, 2);
    assert ZeroBytes(w >> 48, 2) == if w & 0xFF_0000_0000_0000 != 0 then 0 else 1 + ZeroBytes(w >> 56, 1);
    assert ZeroBytes(w >> 56, 1) == if w & 0xFF00_0000_0000_0000 != 0 then 0 else 1;
  }

  lemma FirstByteZero(w: bv64)
    ensures FirstByte(w) == 8 <==> w == 0
  {
  }

  lemma MaskedBits(val: bv64)
    requires val != 0
    ensures FirstByte(val) <= 7 && (val ^ (val - 1)) & (ONES - 1) == Kept(FirstByte(val))
  {
  }

  lemma ZeroBytesIsFirst(w: bv64)
    ensures ZeroBytes(w, 8) == FirstByte(w)
  {
    hide ZeroBytes;
    LowHalf(w);
    HighHalf(w);
  }

  /** The multiplication counts exactly the zero low bytes, and only a zero word has eight. */
  lemma NbCommonBytesCounts(val: bv64)
    ensures ZeroBytes(val, 8) == 8 <==> val == 0
    ensures val != 0 ==> NbCommonBytes(val) == ZeroBytes(val, 8)
  {
    hide Count, ZeroBytes, FirstByte;
    ZeroBytesIsFirst(val);
    FirstByteZero(val);
    if val != 0 {
      MaskedBits(val);
      CountsTo2();
      CountsTo4();
      CountsTo6();
      CountsTo7();
    }
  }

  // ---------- LZ4_count ----------

  ghost predicate Same(s: Bytes, a: nat, b: nat, n: nat) {
    b <= a && a + n <= |s| && s[a..a + n] == s[b..b + n]
  }

  lemma SameNone(s: Bytes, a: nat, b: nat)
    requires b <= a <= |s|
    ensures Same(s, a, b, 0)
  {
  }

  lemma AgreesSame(s: Bytes, a: nat, b: nat, z: nat)
    requires b <= a && a + 8 <= |s| && AgreesFor(s, b, a, z, 8)
    ensures z <= 8 && Same(s, a, b, z) && (z < 8 ==> s[a + z] != s[b + z])
  {
  }

  /** What the difference of two words says about the bytes. */
  lemma WordDifference(s: Bytes, a: nat, b: nat)
    requires b <= a && a + 8 <= |s|
    ensures var d := Differ(ReadWord(s, b, 8), ReadWord(s, a, 8));
      && (d == 0 ==> Same(s, a, b, 8))
      && (d != 0 ==>
            && NbCommonBytes(d) < 8 && Same(s, a, b, NbCommonBytes(d))
            && s[a + NbCommonBytes(d)] != s[b + NbCommonBytes(d)])
  {
    hide Differ, ReadWord, NbCommonBytes, ZeroBytes, Same, AgreesFor;
    AgreeingBytes(s, b, a, 8);
    NbCommonBytesCounts(Differ(ReadWord(s, b, 8), ReadWord(s, a, 8)));
    AgreesSame(s, a, b, Agreeing(s, b, a, 8));
  }

  /** One word of the comparison: a zero difference is 8 equal bytes, any other difference is where they end. */
  method CompareWords(src: Bytes, a: nat, b: nat) returns (same: bool, n: nat)
    requires b <= a && a + 8 <= |src|
    ensures same ==> Same(src, a, b, 8)
    ensures !same ==> n < 8 && Same(src, a, b, n) && src[a + n] != src[b + n]
  {
    hide Differ, ReadWord, NbCommonBytes, Same;
    WordDifference(src, a, b);
    var diff := Differ(ReadWord(src, b, 8), ReadWord(src, a, 8));
    same, n := diff == 0, 0;
    if !same { n := NbCommonBytes(diff); }
  }

  lemma Agree(s: Bytes, a: nat, b: nat, n: nat, k: nat)
    requires Same(s, a, b, n) && Same(s, a + n, b + n, k)
    ensures Same(s, a, b, n + k)
  {
    assert s[a..a + (n + k)] == s[a..a + n] + s[a + n..a + n + k];
    assert s[b..b + (n + k)] == s[b..b + n] + s[b + n..b + n + k];
  }

  /** The common prefix of the input at `pIn` and at `pMatch`, up to the limit. */
  method Lz4Count(src: Bytes, pIn: nat, pMatch: nat, pInLimit: nat) returns (n: nat)
    requires pMatch <= pIn <= pInLimit <= |src|
    ensures n == CommonPrefix(src, pIn, pMatch, pInLimit)
  {
    hide CommonPrefix, Same;
    n := 0;
    SameNone(src, pIn, pMatch);
    var same, k;
    if pIn + n + (STEPSIZE - 1) < pInLimit {
      same, k := CompareWords(src, pIn + n, pMatch + n);
      if same {
        n := n + STEPSIZE;
      } else {
        CommonPrefixIs(src, pIn, pMatch, pInLimit, k);
        return k;
      }
    }
    while pIn + n + (STEPSIZE - 1) < pInLimit
      invariant pIn + n <= pInLimit
      invariant Same(src, pIn, pMatch, n)
      decreases pInLimit - n
    {
      same, k := CompareWords(src, pIn + n, pMatch + n);
      if !same {
        Agree(src, pIn, pMatch, n, k);
        CommonPrefixIs(src, pIn, pMatch, pInLimit, n + k);
        return n + k;
      }
      Agree(src, pIn, pMatch, n, STEPSIZE);
      n := n + STEPSIZE;
    }
    n := CountTail(src, pIn, pMatch, pInLimit, n);
  }

  lemma FourBytes(s: Bytes, a: nat, b: nat)
    requires b <= a && a + 4 <= |s|
    ensures Same(s, a, b, 4) <==> s[a..a + 4] == s[b..b + 4]
    ensures s[b..b + 4] == s[a..a + 4] <==>
      s[a] == s[b] && s[a + 1] == s[b + 1] && s[a + 2] == s[b + 2] && s[a + 3] == s[b + 3]
  {
    assert s[a..a + 4] == [s[a], s[a + 1], s[a + 2], s[a + 3]];
    assert s[b..b + 4] == [s[b], s[b + 1], s[b + 2], s[b + 3]];
  }

  lemma OneByte(s: Bytes, a: nat, b: nat)
    requires b <= a < |s| && s[a] == s[b]
    ensures Same(s, a, b, 1)
  {
    assert s[a..a + 1] == [s[a]] && s[b..b + 1] == [s[b]];
  }

  lemma TwoBytes(s: Bytes, a: nat, b: nat)
    requires b <= a && a + 2 <= |s|
    ensures Same(s, a, b, 2) <==> s[a..a + 2] == s[b..b + 2]
    ensures s[b..b + 2] == s[a..a + 2] <==> s[a] == s[b] && s[a + 1] == s[b + 1]
  {
    assert s[a..a + 2] == [s[a], s[a + 1]];
    assert s[b..b + 2] == [s[b], s[b + 1]];
  }

  /** The last 7 bytes: a half word, a pair and a byte. */
  method CountTail(src: Bytes, pIn: nat, pMatch: nat, pInLimit: nat, done: nat) returns (n: nat)
    requires pMatch <= pIn <= pInLimit <= |src| && pIn + done <= pInLimit < pIn + done + STEPSIZE
    requires Same(src, pIn, pMatch, done)
    ensures n == CommonPrefix(src, pIn, pMatch, pInLimit)
  {
    hide CommonPrefix, Same;
    n := done;
    if pIn + n + 3 < pInLimit {
      FourBytes(src, pIn + n, pMatch + n);
      if src[pMatch + n..pMatch + n + 4] == src[pIn + n..pIn + n + 4] {
        Agree(src, pIn, pMatch, n, 4);
        n := n + 4;
      }
    }
    n := CountLast(src, pIn, pMatch, pInLimit, n);
  }

  method PairMatches(src: Bytes, a: nat, b: nat) returns (same: bool)
    requires b <= a && a + 2 <= |src|
    ensures same <==> src[a] == src[b] && src[a + 1] == src[b + 1]
    ensures same ==> Same(src, a, b, 2)
  {
    TwoBytes(src, a, b);
    same := src[b..b + 2] == src[a..a + 2];
  }

  method CountLast(src: Bytes, pIn: nat, pMatch: nat, pInLimit: nat, done: nat) returns (n: nat)
    requires pMatch <= pIn <= pInLimit <= |src| && pIn + done <= pInLimit
    requires Same(src, pIn, pMatch, done)
    requires var a, b := pIn + done, pMatch + done;
      pInLimit <= a + 3 || src[a] != src[b] || src[a + 1] != src[b + 1] || src[a + 2] != src[b + 2]
        || src[a + 3] != src[b + 3]
    ensures n == CommonPrefix(src, pIn, pMatch, pInLimit)
  {
    hide *;
    n := done;
    if pIn + n + 1 < pInLimit {
      var pair := PairMatches(src, pIn + n, pMatch + n);
      if pair {
        Agree(src, pIn, pMatch, n, 2);
        n := n + 2;
      }
    }
    n := CountByte(src, pIn, pMatch, pInLimit, n);
  }

  method CountByte(src: Bytes, pIn: nat, pMatch: nat, pInLimit: nat, done: nat) returns (n: nat)
    requires pMatch <= pIn <= pInLimit <= |src| && pIn + done <= pInLimit && Same(src, pIn, pMatch, done)
    requires var a, b := pIn + done, pMatch + done; pInLimit <= a + 1 || src[a] != src[b] || src[a + 1] != src[b + 1]
    ensures n == CommonPrefix(src, pIn, pMatch, pInLimit)
  {
    hide *;
    n := done;
    if pIn + n < pInLimit && src[pMatch + n] == src[pIn + n] {
      OneByte(src, pIn + n, pMatch + n);
      Agree(src, pIn, pMatch, n, 1);
      n := n + 1;
    }
    CommonPrefixIs(src, pIn, pMatch, pInLimit, n);
  }
}
