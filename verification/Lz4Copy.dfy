/**
 The copies of the decompressor: blocks of 8, 16 and 32 bytes that overrun their end, and the start of an
 overlapping match, proved equal to the byte-by-byte periodic copy of the format.
 */
module Lz4Copy {
  import opened Values
  import opened Lz4Format

  /** In `[lo, hi)` every byte equals the one `offset` before it. */
  ghost predicate Periodic(s: Bytes, lo: nat, hi: nat, offset: nat) {
    1 <= offset <= lo <= hi <= |s| && forall k :: lo <= k < hi ==> s[k] == s[k - offset]
  }

  lemma {:induction false} CopyMatchAppend(out: Bytes, offset: nat, len: nat)
    requires 1 <= offset <= |out|
    ensures var r := CopyMatch(out, offset, len);
      CopyMatch(out, offset, len + 1) == r + [r[|out| + len - offset]]
    decreases len
  {
    if len > 0 { CopyMatchAppend(out + [out[|out| - offset]], offset, len - 1); }
  }

  /** A periodic stretch is the match copy. */
  lemma {:induction false} PeriodicIsCopy(s: Bytes, lo: nat, hi: nat, offset: nat)
    requires Periodic(s, lo, hi, offset)
    ensures s[..hi] == CopyMatch(s[..lo], offset, hi - lo)
    decreases hi
  {
    if lo < hi {
      PeriodicIsCopy(s, lo, hi - 1, offset);
      CopyMatchAppend(s[..lo], offset, hi - 1 - lo);
      assert s[..hi] == s[..hi - 1] + [s[hi - 1]];
    }
  }

  /** A stretch that is periodic further than asked is periodic as far as asked. */
  lemma Shorten(s: Bytes, lo: nat, hi: nat, e: nat, offset: nat)
    requires Periodic(s, lo, hi, offset) && lo <= e <= hi
    ensures Periodic(s, lo, e, offset)
  {
  }

  /**
   How a match from `op` on is repeated: with its offset as the period; at offset zero it starts with a zero
   byte, and every other one equals the byte before it.
   */
  ghost predicate Begun(s: Bytes, op: nat, offset: nat, lo: nat, period: nat) {
    if offset == 0 then lo == op + 1 && period == 1 && op < |s| && s[op] == 0 else lo == op && period == offset
  }

  /** Repeated that way up to `e`, it is the match as it is decoded. */
  lemma BegunIsCopied(s: Bytes, op: nat, e: nat, hi: nat, offset: nat, lo: nat, period: nat)
    requires Begun(s, op, offset, lo, period) && Periodic(s, lo, hi, period) && op < e <= hi && offset <= op
    ensures s[..e] == Copied(s[..op], offset, e - op)
  {
    hide CopyMatch;
    Shorten(s, lo, hi, e, period);
    if offset == 0 {
      ZerosFollow(s, op, e);
      assert s[..e] == s[..op] + s[op..e];
    } else {
      PeriodicIsCopy(s, op, e, offset);
    }
  }

  lemma {:induction false} ZerosFollow(s: Bytes, op: nat, e: nat)
    requires op < e && Periodic(s, op + 1, e, 1) && s[op] == 0
    ensures s[op..e] == Zeros(e - op)
    decreases e
  {
    if e > op + 1 {
      Shorten(s, op + 1, e, e - 1, 1);
      ZerosFollow(s, op, e - 1);
      assert s[e - 2] == s[op..e - 1][e - 2 - op] == 0;
      assert s[op..e] == s[op..e - 1] + [s[e - 1]];
    }
  }

  /** Going back several periods at once. */
  lemma {:induction false} PeriodicJump(s: Bytes, lo: nat, hi: nat, offset: nat, i: nat, c: nat)
    requires Periodic(s, lo, hi, offset) && i < hi && c * offset <= i
    requires c == 0 || i - (c - 1) * offset >= lo
    ensures s[i] == s[i - c * offset]
    decreases c
  {
    if c > 0 {
      assert (c - 1) * offset == c * offset - offset;
      assert c >= 2 ==> i - (c - 2) * offset >= lo by {
        assert (c - 2) * offset == (c - 1) * offset - offset;
      }
      PeriodicJump(s, lo, hi, offset, i, c - 1);
    }
  }

  /** `s'` is `s` with the `n` bytes at `m` copied to `d`. */
  ghost predicate BlockCopied(s: Bytes, s': Bytes, d: nat, m: nat, n: nat) {
    m + n <= d && d + n <= |s| && s' == s[..d] + s[m..m + n] + s[d + n..]
  }

  /** Copying a block from a distance that is a multiple of the period, and at least the block, keeps the period. */
  lemma BlockExtends(s: Bytes, s': Bytes, lo: nat, d: nat, m: nat, n: nat, offset: nat, c: nat)
    requires Periodic(s, lo, d, offset) && BlockCopied(s, s', d, m, n)
    requires c >= 1 && d - m == c * offset && m + offset >= lo
    ensures Periodic(s', lo, d + n, offset)
    ensures s'[..d] == s[..d]
  {
    forall k | d <= k < d + n ensures s'[k] == s'[k - offset] {
      assert s'[k] == s[k - c * offset];
      assert (c - 1) * offset == c * offset - offset;
      if k - offset < d {
        PeriodicJump(s, lo, d, offset, k - offset, c - 1) by {
          assert c >= 2 ==> (c - 2) * offset == (c - 1) * offset - offset;
        }
      } else {
        assert s'[k - offset] == s[k - offset - c * offset];
        assert s[k - c * offset] == s[k - c * offset - offset];
      }
    }
  }

  /** memcpy of `n` bytes within the output; source and destination do not overlap. */
  method CopyBlock(dst: array<Byte>, d: nat, m: nat, n: nat)
    requires m + n <= d && d + n <= dst.Length
    modifies dst
    ensures BlockCopied(old(dst[..]), dst[..], d, m, n)
  {
    forall i | 0 <= i < n {
      dst[d + i] := dst[m + i];
    }
  }

  /** LZ4_wildCopy8 within the output: 8 bytes at a time until `e` is reached or passed. */
  method WildCopy8(dst: array<Byte>, d0: nat, m0: nat, e: nat, ghost lo: nat, ghost offset: nat, ghost c: nat)
    requires Periodic(dst[..], lo, d0, offset)
    requires c >= 1 && d0 - m0 == c * offset && m0 + 8 <= d0 && m0 + offset >= lo
    requires d0 + 8 <= dst.Length && e + 7 <= dst.Length
    modifies dst
    ensures exists hi :: e <= hi && d0 <= hi <= dst.Length && Periodic(dst[..], lo, hi, offset)
    ensures dst[..d0] == old(dst[..d0])
  {
    var d, m := d0, m0;
    ghost var s := dst[..];
    CopyBlock(dst, d, m, 8);
    BlockExtends(s, dst[..], lo, d, m, 8, offset, c);
    d, m := d + 8, m + 8;
    while d < e
      invariant d0 + 8 <= d <= dst.Length && d - m == c * offset && m0 <= m
      invariant Periodic(dst[..], lo, d, offset)
      invariant dst[..d0] == old(dst[..d0])
      decreases e - d
    {
      s := dst[..];
      CopyBlock(dst, d, m, 8);
      BlockExtends(s, dst[..], lo, d, m, 8, offset, c);
      assert dst[..d0] == dst[..d][..d0] && s[..d0] == s[..d][..d0];
      d, m := d + 8, m + 8;
    }
  }

  /** LZ4_wildCopy32 within the output, as two copies of 16 bytes each turn. */
  method WildCopy32(dst: array<Byte>, d0: nat, m0: nat, e: nat, ghost lo: nat, ghost offset: nat)
    requires Periodic(dst[..], lo, d0, offset)
    requires d0 - m0 == offset && offset >= 16 && m0 + offset >= lo
    requires d0 + 32 <= dst.Length && e + 31 <= dst.Length
    modifies dst
    ensures exists hi :: e <= hi && d0 <= hi <= dst.Length && Periodic(dst[..], lo, hi, offset)
    ensures dst[..d0] == old(dst[..d0])
  {
    var d, m := d0, m0;
    CopyTwo16(dst, d, m, lo, offset);
    d, m := d + 32, m + 32;
    while d < e
      invariant d0 + 32 <= d <= dst.Length && d - m == offset && m0 <= m
      invariant Periodic(dst[..], lo, d, offset)
      invariant dst[..d0] == old(dst[..d0])
      decreases e - d
    {
      ghost var s := dst[..];
      CopyTwo16(dst, d, m, lo, offset);
      assert dst[..d0] == dst[..d][..d0] && s[..d0] == s[..d][..d0];
      d, m := d + 32, m + 32;
    }
  }

  method CopyTwo16(dst: array<Byte>, d: nat, m: nat, ghost lo: nat, ghost offset: nat)
    requires Periodic(dst[..], lo, d, offset)
    requires d - m == offset && offset >= 16 && m + offset >= lo && d + 32 <= dst.Length
    modifies dst
    ensures Periodic(dst[..], lo, d + 32, offset)
    ensures dst[..d] == old(dst[..d])
  {
    ghost var s := dst[..];
    CopyBlock(dst, d, m, 16);
    BlockExtends(s, dst[..], lo, d, m, 16, offset, 1);
    ghost var s1 := dst[..];
    CopyBlock(dst, d + 16, m + 16, 16);
    BlockExtends(s1, dst[..], lo, d + 16, m + 16, 16, offset, 1);
    assert dst[..d] == dst[..d + 16][..d] && s1[..d] == s1[..d + 16][..d];
  }

  const INC32TABLE: seq<int> := [0, 1, 2, 1, 0, 4, 4, 4]
  const DEC64TABLE: seq<int> := [0, 0, 0, -1, -4, 1, 2, 3]

  /** How many periods back the second half of the first 8 bytes, and then the 8-byte copies, read. */
  function HalfPeriods(offset: nat): nat
    requires 1 <= offset < 8
  {
    [0, 4, 2, 2, 2, 1, 1, 1][offset]
  }

  function FullPeriods(offset: nat): nat
    requires 1 <= offset < 8
  {
    [0, 8, 4, 3, 2, 2, 2, 2][offset]
  }

  /**
   The two tables are right: after 4 single bytes the next 4 are read a whole number of periods and at
   least 4 bytes back, and everything after them a whole number of periods and at least 8 bytes back,
   never from before the first period.
   */
  lemma TablesAreExact(offset: nat)
    requires 1 <= offset < 8
    ensures var half := 4 + offset - INC32TABLE[offset];
      var full := 8 + offset - INC32TABLE[offset] + DEC64TABLE[offset];
      && half == HalfPeriods(offset) * offset && 4 <= half <= 4 + offset
      && full == FullPeriods(offset) * offset && 8 <= full <= 8 + offset
  {
    assert offset == 1 || offset == 2 || offset == 3 || offset == 4 || offset == 5 || offset == 6 || offset == 7;
  }

  /** One byte of an overlapping copy. */
  lemma ByteExtends(s: Bytes, s': Bytes, lo: nat, d: nat, offset: nat)
    requires Periodic(s, lo, d, offset) && d < |s| && s' == s[d := s[d - offset]]
    ensures Periodic(s', lo, d + 1, offset) && s'[..d] == s[..d]
  {
  }

  /** LZ4_write32 of zero. */
  method ZeroFourBytes(dst: array<Byte>, op: nat)
    requires op + 4 <= dst.Length
    modifies dst
    ensures dst[..op] == old(dst[..op]) && dst[op..op + 4] == Zeros(4)
  {
    dst[op], dst[op + 1], dst[op + 2], dst[op + 3] := 0, 0, 0, 0;
  }

  /** One byte from `offset` back; from a distance of zero it is copied to itself. */
  method CopyOne(dst: array<Byte>, d: nat, offset: nat, ghost op: nat)
    requires offset <= op <= d < dst.Length && (offset > 0 ==> Periodic(dst[..], op, d, offset))
    modifies dst
    ensures if offset == 0 then dst[..] == old(dst[..]) else Periodic(dst[..], op, d + 1, offset)
    ensures dst[..op] == old(dst[..op])
  {
    ghost var s := dst[..];
    dst[d] := dst[d - offset];
    assert dst[..] == s[d := s[d - offset]];
    if offset > 0 { ByteExtends(s, dst[..], op, d, offset); }
  }

  /** Four single bytes. */
  method CopyFourBytes(dst: array<Byte>, op: nat, offset: nat)
    requires offset <= op && op + 4 <= dst.Length
    modifies dst
    ensures if offset == 0 then dst[..] == old(dst[..]) else Periodic(dst[..], op, op + 4, offset)
    ensures dst[..op] == old(dst[..op])
  {
    assert offset > 0 ==> Periodic(dst[..], op, op, offset);
    hide Periodic;
    CopyOne(dst, op, offset, op);
    CopyOne(dst, op + 1, offset, op);
    CopyOne(dst, op + 2, offset, op);
    CopyOne(dst, op + 3, offset, op);
  }

  /** 4 bytes of zero, copied to the next 4, repeat the first of them. */
  lemma ZeroBlock(s: Bytes, s': Bytes, op: nat)
    requires BlockCopied(s, s', op + 4, op, 4) && s[op..op + 4] == Zeros(4)
    ensures Begun(s', op, 0, op + 1, 1) && Periodic(s', op + 1, op + 8, 1)
  {
    assert forall k :: op <= k < op + 4 ==> s[k] == s[op..op + 4][k - op] == 0;
    assert forall k :: op + 4 <= k < op + 8 ==> s'[k] == s[k - 4];
  }

  /** An overlapping start: 4 bytes, then a block of 4 with the source adjusted by the tables. */
  method CopyOverlapping8(dst: array<Byte>, op: nat, offset: nat)
    returns (m: nat, ghost lo: nat, ghost period: nat, ghost c: nat)
    requires offset <= op && offset < 8 && op + 8 <= dst.Length
    modifies dst
    ensures Begun(dst[..], op, offset, lo, period) && Periodic(dst[..], lo, op + 8, period)
    ensures c >= 1 && op + 8 - m == c * period && m <= op && m + period >= lo
    ensures dst[..op] == old(dst[..op])
  {
    hide HalfPeriods, FullPeriods, Periodic, BlockCopied, Zeros;
    ZeroFourBytes(dst, op);
    var inc, dec := INC32TABLE[offset], DEC64TABLE[offset];
    m := op - offset;
    CopyFourBytes(dst, op, offset);
    if offset > 0 { TablesAreExact(offset); }
    m := m + inc;
    ghost var s := dst[..];
    CopyBlock(dst, op + 4, m, 4);
    BlockKeeps(s, dst[..], op + 4, m, 4, op);
    if offset == 0 {
      assert s[op..op + 4] == dst[..][op..op + 4] by { BlockKeepsFrom(s, dst[..], op + 4, m, 4, op); }
      ZeroBlock(s, dst[..], op);
      lo, period, c := op + 1, 1, 8;
    } else {
      PeriodsPositive(offset);
      BlockExtends(s, dst[..], op, op + 4, m, 4, offset, HalfPeriods(offset));
      lo, period, c := op, offset, FullPeriods(offset);
    }
    m := m - dec;
  }

  /** A block copy leaves what stands before it. */
  lemma BlockKeeps(s: Bytes, s': Bytes, d: nat, m: nat, n: nat, e: nat)
    requires BlockCopied(s, s', d, m, n) && e <= d
    ensures |s'| == |s| && s'[..e] == s[..e]
  {
  }

  lemma BlockKeepsFrom(s: Bytes, s': Bytes, d: nat, m: nat, n: nat, e: nat)
    requires BlockCopied(s, s', d, m, n) && e <= d
    ensures |s'| == |s| && s'[e..d] == s[e..d]
  {
  }

  lemma PeriodsPositive(offset: nat)
    requires 1 <= offset < 8
    ensures HalfPeriods(offset) >= 1 && FullPeriods(offset) >= 1
  {
  }

  /**
   The first 8 bytes of a match, as one block unless the match overlaps them. Returns where the copy
   goes on reading, what is repeated from where on, and how many times back that is.
   */
  method CopyFirst8(dst: array<Byte>, op: nat, offset: nat)
    returns (m: nat, ghost lo: nat, ghost period: nat, ghost c: nat)
    requires offset <= op && op + 8 <= dst.Length
    modifies dst
    ensures Begun(dst[..], op, offset, lo, period) && Periodic(dst[..], lo, op + 8, period)
    ensures c >= 1 && op + 8 - m == c * period && m <= op && m + period >= lo
    ensures dst[..op] == old(dst[..op])
  {
    if offset < 8 {
      m, lo, period, c := CopyOverlapping8(dst, op, offset);
    } else {
      ghost var s := dst[..];
      CopyBlock(dst, op, op - offset, 8);
      BlockExtends(s, dst[..], op, op, op - offset, 8, offset, 1);
      m := op - offset + 8;
      lo, period, c := op, offset, 1;
    }
  }

  // ---------- the fast loop's copy ----------

  /** The first `offset` bytes of the pattern are those before `d`. */
  ghost predicate PatternAt(s: Bytes, d: nat, v: Bytes, offset: nat) {
    offset <= d <= |s| && offset <= |v| && forall i :: 0 <= i < offset ==> v[i] == s[d - offset + i]
  }

  /** One 8-byte pattern written at `d` over a stretch that already repeats it. */
  lemma PatternExtends(s: Bytes, s': Bytes, lo: nat, d: nat, v: Bytes, offset: nat)
    requires |v| == 8 && (offset == 1 || offset == 2 || offset == 4) && offset <= lo <= d
    requires d + 8 <= |s| && s' == s[..d] + v + s[d + 8..]
    requires forall i :: offset <= i < 8 ==> v[i] == v[i - offset]
    requires Periodic(s, lo, d, offset)
    requires PatternAt(s, d, v, offset)
    ensures Periodic(s', lo, d + 8, offset) && s'[..lo] == s[..lo]
    ensures PatternAt(s', d + 8, v, offset)
  {
    forall k | d <= k < d + 8 ensures s'[k] == s'[k - offset] {
      assert s'[k] == v[k - d];
      if k - d >= offset { assert s'[k - offset] == v[k - d - offset]; }
    }
    forall i | 0 <= i < offset ensures v[i] == s'[d + 8 - offset + i] {
      assert s'[d + 8 - offset + i] == v[8 - offset + i];
      PatternWraps(v, offset, i);
    }
  }

  lemma PatternWraps(v: Bytes, offset: nat, i: nat)
    requires |v| == 8 && (offset == 1 || offset == 2 || offset == 4) && i < offset
    requires forall i :: offset <= i < 8 ==> v[i] == v[i - offset]
    ensures v[8 - offset + i] == v[i]
  {
    if offset == 1 {
      assert v[7] == v[6] == v[5] == v[4] == v[3] == v[2] == v[1] == v[0];
    } else if offset == 2 {
      assert v[6 + i] == v[4 + i] == v[2 + i] == v[i];
    }
  }

  method WritePattern(dst: array<Byte>, d: nat, v: Bytes)
    requires |v| == 8 && d + 8 <= dst.Length
    modifies dst
    ensures dst[..] == old(dst[..d]) + v + old(dst[d + 8..])
  {
    forall i | 0 <= i < 8 {
      dst[d + i] := v[i];
    }
  }

  /** The 8-byte pattern for offsets 1, 2 and 4. */
  function Pattern(s: Bytes, m: nat, offset: nat): (v: Bytes)
    requires (offset == 1 || offset == 2 || offset == 4) && m + offset <= |s|
    ensures |v| == 8
    ensures forall i :: offset <= i < 8 ==> v[i] == v[i - offset]
    ensures forall i :: 0 <= i < offset ==> v[i] == s[m + i]
  {
    if offset == 1 then [s[m], s[m], s[m], s[m], s[m], s[m], s[m], s[m]]
    else if offset == 2 then [s[m], s[m + 1], s[m], s[m + 1], s[m], s[m + 1], s[m], s[m + 1]]
    else [s[m], s[m + 1], s[m + 2], s[m + 3], s[m], s[m + 1], s[m + 2], s[m + 3]]
  }

  /** LZ4_memcpy_using_offset: a repeated pattern for offsets 1, 2 and 4, the general start otherwise. */
  method MemcpyUsingOffset(dst: array<Byte>, op: nat, offset: nat, e: nat)
    requires offset <= op && op + MINMATCH <= e && e + 8 <= dst.Length
    requires op + 16 <= dst.Length
    modifies dst
    ensures dst[..e] == Copied(old(dst[..op]), offset, e - op)
  {
    hide CopyMatch;
    if offset == 1 || offset == 2 || offset == 4 {
      RepeatPattern(dst, op, offset, e);
      ghost var hi :| e <= hi <= dst.Length && Periodic(dst[..], op, hi, offset);
      BegunIsCopied(dst[..], op, e, hi, offset, op, offset);
      assert dst[..][..e] == dst[..e] && dst[..][..op] == dst[..op];
    } else {
      MemcpyUsingOffsetBase(dst, op, offset, e);
    }
  }

  method MemcpyUsingOffsetBase(dst: array<Byte>, op: nat, offset: nat, e: nat)
    requires offset <= op && op + MINMATCH <= e && e + 8 <= dst.Length
    requires op + 16 <= dst.Length
    modifies dst
    ensures dst[..e] == Copied(old(dst[..op]), offset, e - op)
  {
    hide CopyMatch, Periodic;
    var m, lo, period, c := CopyFirst8(dst, op, offset);
    ghost var s := dst[..];
    WildCopy8(dst, op + 8, m, e, lo, period, c);
    BegunKept(s, dst[..], op, op + 8, offset, lo, period);
    ghost var hi :| e <= hi && op + 8 <= hi <= dst.Length && Periodic(dst[..], lo, hi, period);
    BegunIsCopied(dst[..], op, e, hi, offset, lo, period);
    assert dst[..][..e] == dst[..e] && dst[..][..op] == dst[..op];
  }

  /** Copies behind `d` leave the beginning of the match. */
  lemma BegunKept(s: Bytes, s': Bytes, op: nat, d: nat, offset: nat, lo: nat, period: nat)
    requires Begun(s, op, offset, lo, period) && op < d <= |s| == |s'| && s'[..d] == s[..d]
    ensures Begun(s', op, offset, lo, period) && s'[..op] == s[..op]
  {
    assert s'[op] == s'[..d][op] && s'[..op] == s'[..d][..op] && s[..op] == s[..d][..op];
  }

  /** One turn: the pattern once more. */
  method PatternStep(dst: array<Byte>, d: nat, v: Bytes, offset: nat, ghost op: nat)
    requires |v| == 8 && (offset == 1 || offset == 2 || offset == 4) && offset <= op <= d && d + 8 <= dst.Length
    requires forall i :: offset <= i < 8 ==> v[i] == v[i - offset]
    requires Periodic(dst[..], op, d, offset) && PatternAt(dst[..], d, v, offset)
    modifies dst
    ensures Periodic(dst[..], op, d + 8, offset) && PatternAt(dst[..], d + 8, v, offset)
    ensures dst[..op] == old(dst[..op])
  {
    hide Periodic, PatternAt;
    ghost var s := dst[..];
    WritePattern(dst, d, v);
    PatternExtends(s, dst[..], op, d, v, offset);
    assert dst[..op] == dst[..][..op] && s[..op] == old(dst[..op]);
  }

  method RepeatPattern(dst: array<Byte>, op: nat, offset: nat, e: nat)
    requires offset == 1 || offset == 2 || offset == 4
    requires offset <= op && op + MINMATCH <= e && e + 8 <= dst.Length
    modifies dst
    ensures exists hi :: e <= hi <= dst.Length && Periodic(dst[..], op, hi, offset)
    ensures dst[..op] == old(dst[..op])
  {
    var v := Pattern(dst[..], op - offset, offset);
    assert Periodic(dst[..], op, op, offset);
    assert PatternAt(dst[..], op, v, offset);
    hide Pattern, Periodic, PatternAt;
    var d := op;
    PatternStep(dst, d, v, offset, op);
    d := d + 8;
    while d < e
      invariant op + 8 <= d <= dst.Length
      invariant Periodic(dst[..], op, d, offset) && PatternAt(dst[..], d, v, offset)
      invariant dst[..op] == old(dst[..op])
      decreases e - d
    {
      PatternStep(dst, d, v, offset, op);
      d := d + 8;
    }
  }
}
