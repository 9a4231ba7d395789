/**
 LZ4_decompress_safe: LZ4_decompress_generic at full block, end on input size, no dictionary. The labels the C
 code jumps between are the states below; each stage is one method, and every stage keeps the relation to
 the byte-by-byte reading of the block.
 */
module Lz4Decompress {
  import opened Values
  import opened Wrappers
  import opened Lz4Format
  import opened Lz4Copy

  const RUN_MASK: nat := 15
  const ML_MASK: nat := 15
  const FASTLOOP_SAFE_DISTANCE: nat := 64
  const MATCH_SAFEGUARD_DISTANCE: nat := 12
  const WILDCOPYLENGTH: nat := 8

  // ---------- which blocks are taken ----------

  /** Short literals with room around them: both loops copy 16 bytes and ask nothing about the end of the block. */
  predicate Roomy(src: Bytes, ip: nat, op: nat, cap: nat) {
    ip < |src| && src[ip] / 16 != RUN_MASK && ip + 1 + 16 < |src| && op + 14 + 18 <= cap
  }

  /**
   The second stage of the main loop's shortcut: a short match, not too close, is copied without a look at
   the end.
   */
  predicate Exempt(src: Bytes, ip: nat, op: nat, cap: nat, fast: bool, offset: nat) {
    !fast && Roomy(src, ip, op, cap) && src[ip] % 16 != ML_MASK && offset >= 8
  }

  /** The literals at `ip` do not make the fast loop leave. */
  predicate StaysForLiterals(src: Bytes, ip: nat, op: nat, cap: nat)
    requires ip < |src|
  {
    if src[ip] / 16 != RUN_MASK then ip + 1 + 16 < |src|
    else
      match LiteralField(src, ip)
      case None => false
      case Some(lit) => op + lit.0 + 32 <= cap && lit.1 + lit.0 + 32 <= |src|
  }

  /** The whole sequence does not. */
  predicate Stays(src: Bytes, ip: nat, op: nat, cap: nat, end: nat)
    requires ip < |src|
  {
    StaysForLiterals(src, ip, op, cap) && end + FASTLOOP_SAFE_DISTANCE < cap
  }

  /** What is asked of one sequence. */
  predicate Passes(src: Bytes, ip: nat, op: nat, cap: nat, fast: bool)
    requires ip < |src| && ParseHead(src, ip).HSequence?
  {
    var h := ParseHead(src, ip);
    && (Roomy(src, ip, op, cap) || (op + |h.literals| + MFLIMIT <= cap && h.litEnd + 2 + 1 + LASTLITERALS <= |src|))
    && h.offset <= op + |h.literals|
    && (src[ip] % 16 == ML_MASK ==> h.next + LASTLITERALS <= |src|)
    && (Exempt(src, ip, op, cap, fast, h.offset) || op + |h.literals| + h.matchLen + LASTLITERALS <= cap)
  }

  /** Which blocks the decoder takes, sequence by sequence; `fast` is whether it is still in the fast loop. */
  predicate Accepts(src: Bytes, ip: nat, op: nat, cap: nat, fast: bool)
    decreases |src| - ip
  {
    match ParseHead(src, ip)
    case HLast(l) => op + |l| <= cap
    case HSequence(l, _, _, matchLen, next) =>
      var end := op + |l| + matchLen;
      ip < |src| && Passes(src, ip, op, cap, fast) && Accepts(src, next, end, cap, fast && Stays(src, ip, op, cap, end))
    case _ => false
  }

  /** Everything the general path takes is taken, in either loop. */
  lemma {:induction false} StrictIsAccepted(src: Bytes, ip: nat, op: nat, cap: nat, fast: bool)
    requires Strict(src, ip, op, cap)
    ensures Accepts(src, ip, op, cap, fast)
    decreases |src| - ip
  {
    var h := ParseHead(src, ip);
    SequenceInside(src, ip);
    hide ParseHead, Roomy, Exempt, Stays;
    if h.HSequence? {
      var end := op + |h.literals| + h.matchLen;
      StrictIsAccepted(src, h.next, end, cap, fast && Stays(src, ip, op, cap, end));
    }
  }

  lemma SequenceInside(src: Bytes, ip: nat)
    ensures ParseHead(src, ip).HSequence? ==> ip < |src|
  {
  }

  // ---------- how far the decoder has read ----------

  predicate Taken(src: Bytes, cap: nat) {
    Accepts(src, 0, 0, cap, cap >= FASTLOOP_SAFE_DISTANCE)
  }

  /** Reading on from `ip` with `out` decoded comes to the same as reading the whole block. */
  ghost predicate Tracks(src: Bytes, cap: nat, ip: nat, out: Bytes, fast: bool) {
    var whole, now := Parse(src, 0), Parse(src, ip);
    && (whole.Parsed? <==> now.Parsed?)
    && (whole.Parsed? ==> Expand(whole.block, []) == Expand(now.block, out))
    && (Taken(src, cap) <==> Accepts(src, ip, |out|, cap, fast))
  }

  /** The decoder does not take the block. */
  ghost predicate Refused(src: Bytes, cap: nat) {
    !Taken(src, cap)
  }

  lemma Advance(src: Bytes, cap: nat, ip: nat, out: Bytes, fast: bool)
    requires Tracks(src, cap, ip, out, fast) && ip < |src|
    requires ParseHead(src, ip).HSequence? && Passes(src, ip, |out|, cap, fast)
    ensures var h := ParseHead(src, ip);
      var end := |out| + |h.literals| + h.matchLen;
      h.offset <= |out| + |h.literals|
      && Tracks(src, cap, h.next, Copied(out + h.literals, h.offset, h.matchLen),
                fast && Stays(src, ip, |out|, cap, end))
  {
    hide ParseHead, Taken, Roomy, Exempt, Stays;
  }

  lemma Finish(src: Bytes, cap: nat, ip: nat, out: Bytes, fast: bool)
    requires Tracks(src, cap, ip, out, fast) && ParseHead(src, ip).HLast?
    requires |out| + |ParseHead(src, ip).literals| <= cap
    ensures Parse(src, 0).Parsed? && Expand(Parse(src, 0).block, []) == Some(out + ParseHead(src, ip).literals)
    ensures Taken(src, cap)
  {
    hide ParseHead, Taken;
  }

  lemma RefuseBroken(src: Bytes, ip: nat, out: Bytes, cap: nat, fast: bool)
    requires Tracks(src, cap, ip, out, fast) && ParseHead(src, ip).HMalformed?
    ensures Refused(src, cap)
  {
    hide ParseHead, Taken;
  }

  lemma RefuseLast(src: Bytes, ip: nat, out: Bytes, cap: nat, fast: bool)
    requires Tracks(src, cap, ip, out, fast) && ParseHead(src, ip).HLast? && |out| + |ParseHead(src, ip).literals| > cap
    ensures Refused(src, cap)
  {
    hide ParseHead, Taken;
  }

  lemma RefuseSequence(src: Bytes, ip: nat, out: Bytes, cap: nat, fast: bool)
    requires Tracks(src, cap, ip, out, fast) && ip < |src|
    requires ParseHead(src, ip).HSequence? && !Passes(src, ip, |out|, cap, fast)
    ensures Refused(src, cap)
  {
    hide ParseHead, Taken, Passes;
  }

  // ---------- lengths ----------

  datatype LengthError = NoError | LoopError | InitialError

  function Wrap32(x: nat): nat {
    x % U32_RANGE
  }

  lemma WrapAdd(x: nat, s: nat)
    ensures Wrap32(Wrap32(x) + s) == Wrap32(x + s)
  {
    var q := x / U32_RANGE;
    assert x + s == q * U32_RANGE + (Wrap32(x) + s);
  }

  /** What a length read tells about the continuation at `ip0`. */
  ghost predicate LengthRead(src: Bytes, ip0: nat, lencheck: int, ip: nat, length: nat, error: LengthError) {
    var r := ReadExtension(src, ip0);
    match error
    case InitialError => ip0 >= lencheck
    case NoError => ip < lencheck && r.Some? && r.value.1 == ip && length == Wrap32(r.value.0)
    case LoopError =>
      && ip0 < ip <= |src| && ip >= lencheck
      && (r.Some? ==> r.value.1 >= ip)
      && (if r.Some? && r.value.1 == ip then length == Wrap32(r.value.0)
          else length == Wrap32(255 * (ip - ip0)))
  }

  /** read_variable_length with loop_check set; the sum is 32 bits wide. */
  method ReadVariableLength(src: Bytes, ip0: nat, lencheck: int, initialCheck: bool)
    returns (ip: nat, length: nat, error: LengthError)
    requires lencheck <= |src| && (initialCheck || ip0 < |src|)
    ensures LengthRead(src, ip0, lencheck, ip, length, error)
    ensures error == InitialError ==> initialCheck
    ensures ip0 <= ip <= |src| || error == InitialError
  {
    ip, length, error := ip0, 0, NoError;
    assert Wrap32(0) == 0;
    hide Wrap32;
    if initialCheck && ip >= lencheck {
      error := InitialError;
      return;
    }
    ghost var r := ReadExtension(src, ip0);
    ghost var n := 0;
    while true
      invariant ip == ip0 + n && ip < |src| && length == Wrap32(255 * n)
      invariant n > 0 ==> ip < lencheck
      invariant r == match ReadExtension(src, ip) case None => None case Some(t) => Some((255 * n + t.0, t.1))
      decreases |src| - ip
    {
      var s := src[ip];
      ip := ip + 1;
      length := Wrap32(length + s);
      WrapAdd(255 * n, s);
      if ip >= lencheck {
        error := LoopError;
        return;
      }
      if s != 255 { return; }
      n := n + 1;
    }
  }

  /** A sum of fewer than 2^31 bytes of 255 never wraps to zero. */
  lemma WrappedNotZero(k: nat)
    requires 0 < k < 0x8000_0000
    ensures Wrap32(255 * k) != 0
  {
    assert 255 * k != (255 * k / U32_RANGE) * U32_RANGE;
  }

  // ---------- the states between the labels ----------

  datatype State =
    | AtToken(ip: nat, op: nat)
    | AtLiterals(ip: nat, op: nat, length: nat, token: Byte)
    | AtOffset(ip: nat, op: nat, token: Byte)
    | AtCopyMatch(ip: nat, op: nat, offset: nat, token: Byte)
    | AtMatch(ip: nat, op: nat, offset: nat, length: nat)
    | Finished(op: nat)
    | Failed(ip: nat)

  /** The literal length is known, or is already known not to fit the input. */
  ghost predicate LiteralsReady(src: Bytes, start: nat, ip: nat, length: nat) {
    && start < |src| && ip <= |src|
    && (LiteralField(src, start) == Some((length, ip))
        || (ip + length > |src| && ParseHead(src, start).HMalformed?))
  }

  /** The literals of the sequence at `start` end at `at`, before the end of the input. */
  ghost predicate LiteralsDone(src: Bytes, start: nat, at: nat, literals: Bytes) {
    && start < |src| && LiteralField(src, start).Some?
    && var lit := LiteralField(src, start).value;
       lit.1 + lit.0 == at < |src| && literals == src[lit.1..at]
  }

  /** The literals are copied, and 12 bytes of output remain. */
  ghost predicate AfterRun(src: Bytes, buf: Bytes, start: nat, base: Bytes, at: nat, op: nat, token: Byte) {
    && |base| <= op && op + MFLIMIT <= |buf| && at < |src|
    && LiteralsDone(src, start, at, buf[|base|..op]) && buf[..|base|] == base && token == src[start]
  }

  /**
   What holds in each state: `start` is where the current sequence begins, `base` what was decoded
   before it, `buf` the output buffer.
   */
  ghost predicate StateOk(src: Bytes, buf: Bytes, start: nat, base: Bytes, s: State, fast: bool) {
    match s
    case Failed(_) => Refused(src, |buf|)
    case Finished(op) =>
      op <= |buf| && Parse(src, 0).Parsed? && Expand(Parse(src, 0).block, []) == Some(buf[..op]) && Taken(src, |buf|)
    case AtToken(ip, op) =>
      Tracks(src, |buf|, start, base, fast) && ip == start && ip < |src| && op == |base| <= |buf| && buf[..op] == base
    case AtLiterals(ip, op, length, token) =>
      && Tracks(src, |buf|, start, base, fast) && LiteralsReady(src, start, ip, length)
      && op == |base| <= |buf| && buf[..op] == base && token == src[start]
    case AtOffset(ip, op, token) =>
      && Tracks(src, |buf|, start, base, fast) && AfterRun(src, buf, start, base, ip, op, token) && ip + 2 < |src|
      && (Roomy(src, start, |base|, |buf|) || ip + 2 + 1 + LASTLITERALS <= |src|)
    case AtCopyMatch(ip, op, offset, token) =>
      && Tracks(src, |buf|, start, base, fast) && 2 <= ip < |src| && AfterRun(src, buf, start, base, ip - 2, op, token)
      && offset == OffsetAt(src, ip - 2) && (Roomy(src, start, |base|, |buf|) || ip + 1 + LASTLITERALS <= |src|)
    case AtMatch(ip, op, offset, length) =>
      && Tracks(src, |buf|, start, base, fast) && start < |src| && ip < |src| && |base| <= op && op + MFLIMIT <= |buf|
      && buf[..|base|] == base
      && var h := ParseHead(src, start);
         && h.HSequence? && h.literals == buf[|base|..op] && h.offset == offset && h.matchLen == length && h.next == ip
         && (Roomy(src, start, |base|, |buf|) || h.litEnd + 2 + 1 + LASTLITERALS <= |src|)
         && (src[start] % 16 == ML_MASK ==> ip + LASTLITERALS <= |src|)
  }

  /**
   What the labels of the main loop rely on: the shortcut was not taken for this sequence, or its second
   stage did not apply, and if the sequence came from the fast loop, it is the one that left it.
   */
  ghost predicate OnGeneralPath(src: Bytes, buf: Bytes, start: nat, base: Bytes, s: State, fast: bool) {
    match s
    case AtToken(_, _) => !fast
    case AtLiterals(_, _, _, _) => !Roomy(src, start, |base|, |buf|) && (fast ==> Leaves(src, start, base, |buf|))
    case AtOffset(_, _, token) =>
      (fast || !Roomy(src, start, |base|, |buf|)) && (fast ==> Leaves(src, start, base, |buf|))
    case AtCopyMatch(_, op, offset, token) =>
      (fast || !Roomy(src, start, |base|, |buf|) || token % 16 == ML_MASK || offset < 8 || offset > op)
      && (fast ==> Leaves(src, start, base, |buf|))
    case AtMatch(_, op, offset, _) =>
      && start < |src| && (!Exempt(src, start, |base|, |buf|, fast, offset) || offset > op)
      && (fast ==> Leaves(src, start, base, |buf|))
    case _ => true
  }

  /** The sequence at `start`, if it is one, makes the fast loop leave. */
  ghost predicate Leaves(src: Bytes, start: nat, base: Bytes, cap: nat) {
    start < |src| && var h := ParseHead(src, start);
    h.HSequence? ==> !Stays(src, start, |base|, cap, |base| + |h.literals| + h.matchLen)
  }

  /** What an initial error or a finished length read means for the literals of a sequence. */
  lemma LiteralLengthRead(src: Bytes, start: nat, ip: nat, sum: nat, error: LengthError)
    requires |src| < 0x8000_0000 && start < |src| && src[start] / 16 == 15
    requires LengthRead(src, start + 1, |src| - 15, ip, sum, error)
    requires error != InitialError ==> start + 1 <= ip <= |src|
    ensures error == InitialError ==> ParseHead(src, start).HMalformed?
    ensures error != InitialError ==> LiteralsReady(src, start, ip, RUN_MASK + sum)
  {
    var r := ReadExtension(src, start + 1);
    if error == LoopError && !(r.Some? && r.value.1 == ip) {
      WrappedNotZero(ip - (start + 1));
    }
  }

  // ---------- literals ----------

  /** Copying `n` bytes of the input to the output. */
  method CopyIn(dst: array<Byte>, d: nat, src: Bytes, s: nat, n: nat)
    requires d + n <= dst.Length && s + n <= |src|
    modifies dst
    ensures dst[..d + n] == old(dst[..d]) + src[s..s + n]
  {
    forall i | 0 <= i < n {
      dst[d + i] := src[s + i];
    }
  }

  /** LZ4_wildCopy8 (step 8) and LZ4_wildCopy32 (step 32) from the input. */
  method WildCopyIn(dst: array<Byte>, d0: nat, src: Bytes, s0: nat, e: nat, step: nat)
    requires d0 <= e && step >= 8 && e + step <= dst.Length && s0 + (e - d0) + step <= |src|
    modifies dst
    ensures dst[..e] == old(dst[..d0]) + src[s0..s0 + (e - d0)]
  {
    var d, s := d0, s0;
    CopyIn(dst, d, src, s, step);
    d, s := d + step, s + step;
    while d < e
      invariant d0 < d <= e + step && s - s0 == d - d0
      invariant dst[..d] == old(dst[..d0]) + src[s0..s]
      decreases e - d
    {
      CopyIn(dst, d, src, s, step);
      SliceSplit(src, s0, s, s + step);
      d, s := d + step, s + step;
    }
    assert dst[..e] == dst[..d][..e];
    PrefixOfCopy(old(dst[..d0]), src, s0, s, s0 + (e - d0));
  }

  lemma SliceSplit(s: Bytes, a: nat, b: nat, c: nat)
    requires a <= b <= c <= |s|
    ensures s[a..b] + s[b..c] == s[a..c]
  {
  }

  lemma PrefixOfCopy(head: Bytes, s: Bytes, a: nat, b: nat, c: nat)
    requires a <= c <= b <= |s|
    ensures (head + s[a..b])[..|head| + (c - a)] == head + s[a..c]
  {
  }

  /** The label safe_literal_copy: the last run, a restriction broken, or a copy that may overrun by 8. */
  method SafeLiteralCopy(src: Bytes, dst: array<Byte>, s: State, ghost start: nat, ghost base: Bytes, ghost fast: bool)
    returns (s': State)
    requires s.AtLiterals? && StateOk(src, dst[..], start, base, s, fast)
    requires OnGeneralPath(src, dst[..], start, base, s, fast)
    modifies dst
    ensures StateOk(src, dst[..], start, base, s', fast) && OnGeneralPath(src, dst[..], start, base, s', fast)
    ensures s'.AtOffset? || s'.Finished? || s'.Failed?
    ensures s.ip + s.length == |src| && s.op + s.length <= dst.Length ==> s' == Finished(s.op + s.length)
  {
    hide Parse, Tracks, Refused, Taken, LiteralField, Conformant, Expand, AfterLiterals, Roomy, Leaves, Exempt;
    var ip, op, length, iend, oend := s.ip, s.op, s.length, |src|, dst.Length;
    var cpy := op + length;
    if cpy > oend - MFLIMIT || ip + length > iend - (2 + 1 + LASTLITERALS) {
      if ip + length != iend || cpy > oend {
        RefuseLiterals(src, start, base, ip, length, oend, fast);
        return Failed(ip);
      }
      CopyIn(dst, op, src, ip, length);
      assert src[ip..ip + length] == src[ip..];
      Finish(src, dst.Length, start, base, fast);
      return Finished(cpy);
    }
    WildCopyIn(dst, op, src, ip, cpy, 8);
    assert dst[op..cpy] == src[ip..ip + length];
    return AtOffset(ip + length, cpy, s.token);
  }

  lemma RefuseLiterals(src: Bytes, start: nat, base: Bytes, ip: nat, length: nat, cap: nat, fast: bool)
    requires Tracks(src, cap, start, base, fast)
    requires LiteralsReady(src, start, ip, length) && !Roomy(src, start, |base|, cap)
    requires |base| + length > cap - MFLIMIT || ip + length > |src| - (2 + 1 + LASTLITERALS)
    requires ip + length != |src| || |base| + length > cap
    ensures Refused(src, cap)
  {
    hide Parse, Tracks, Refused, LiteralField, MatchField, OffsetAt, Roomy, Exempt;
    var h := ParseHead(src, start);
    if h.HLast? {
      RefuseLast(src, start, base, cap, fast);
    } else if h.HSequence? {
      RefuseSequence(src, start, base, cap, fast);
    } else {
      RefuseBroken(src, start, base, cap, fast);
    }
  }

  // ---------- matches ----------

  /** get offset */
  method GetOffset(src: Bytes, dst: array<Byte>, s: State, ghost start: nat, ghost base: Bytes, ghost fast: bool)
    returns (s': State)
    requires s.AtOffset? && StateOk(src, dst[..], start, base, s, fast)
    ensures StateOk(src, dst[..], start, base, s', fast) && s'.AtCopyMatch?
    ensures OnGeneralPath(src, dst[..], start, base, s, fast) ==> OnGeneralPath(src, dst[..], start, base, s', fast)
    ensures s'.op == s.op && s'.token == s.token && s'.ip == s.ip + 2
    ensures s.ip + 2 <= |src| && s'.offset == OffsetAt(src, s.ip)
  {
    hide Parse, Tracks, LiteralsDone, Roomy, Leaves, Exempt;
    s' := AtCopyMatch(s.ip + 2, s.op, OffsetAt(src, s.ip), s.token);
  }

  /** The whole sequence is read once its match length is. */
  lemma MatchLengthRead(src: Bytes, cap: nat, start: nat, base: Bytes, at: nat, literals: Bytes, token: Byte, sum: nat,
                        ip: nat, fast: bool)
    requires Tracks(src, cap, start, base, fast) && LiteralsDone(src, start, at, literals)
    requires token == src[start] && at + 2 < |src|
    requires if token % 16 == ML_MASK then LengthRead(src, at + 2, |src| - LASTLITERALS + 1, ip, sum, NoError)
             else sum == 0 && ip == at + 2
    ensures ParseHead(src, start) == HSequence(literals, at, OffsetAt(src, at), token % 16 + sum + MINMATCH, ip)
  {
    hide Parse, LiteralField, OffsetAt;
    var lit := LiteralField(src, start).value;
    assert ParseHead(src, start) == AfterLiterals(src, token, literals, at);
    if token % 16 == ML_MASK {
      assert sum == Sum(ReadExtension(src, at + 2).value.0, Word32);
    }
  }

  /** A match length that runs into the last literals refuses the block. */
  lemma MatchLengthFails(src: Bytes, start: nat, base: Bytes, at: nat, literals: Bytes, token: Byte, sum: nat, ip: nat,
                         cap: nat, fast: bool)
    requires Tracks(src, cap, start, base, fast) && LiteralsDone(src, start, at, literals)
    requires token == src[start] && at + 2 < |src|
    requires token % 16 == ML_MASK && LengthRead(src, at + 2, |src| - LASTLITERALS + 1, ip, sum, LoopError)
    ensures Refused(src, cap)
  {
    hide Parse, LiteralField, OffsetAt, Refused, Tracks, Roomy, Exempt;
    assert ParseHead(src, start) == AfterLiterals(src, token, literals, at);
    var h := ParseHead(src, start);
    if h.HSequence? {
      RefuseSequence(src, start, base, cap, fast);
    } else {
      RefuseBroken(src, start, base, cap, fast);
    }
  }

  /** The label _copy_match: read the rest of the match length. */
  method CopyMatchLength(src: Bytes, dst: array<Byte>, s: State, ghost start: nat, ghost base: Bytes, ghost fast: bool)
    returns (s': State)
    requires s.AtCopyMatch? && StateOk(src, dst[..], start, base, s, fast)
    ensures StateOk(src, dst[..], start, base, s', fast)
    ensures OnGeneralPath(src, dst[..], start, base, s, fast) ==> OnGeneralPath(src, dst[..], start, base, s', fast)
    ensures s'.Failed? || (s'.AtMatch? && s'.op == s.op && s'.offset == s.offset)
    ensures s'.AtMatch? && s.token % 16 != ML_MASK ==> s'.length == s.token % 16 + MINMATCH && s'.ip == s.ip
  {
    hide Parse, Tracks, LiteralsDone, Refused, ParseHead, OffsetAt, LengthRead, Roomy, Leaves;
    var ip, length := s.ip, s.token % 16;
    ghost var literals := dst[|base|..s.op];
    if length == ML_MASK {
      var more, error;
      ip, more, error := ReadVariableLength(src, ip, |src| - LASTLITERALS + 1, false);
      if error != NoError {
        MatchLengthFails(src, start, base, s.ip - 2, literals, s.token, more, ip, dst.Length, fast);
        return Failed(ip);
      }
      MatchLengthRead(src, dst.Length, start, base, s.ip - 2, literals, s.token, more, ip, fast);
      length := length + more;
      ReadInside(src, s.ip, |src| - LASTLITERALS + 1, ip, more);
    } else {
      MatchLengthRead(src, dst.Length, start, base, s.ip - 2, literals, s.token, 0, ip, fast);
    }
    length := length + MINMATCH;
    return AtMatch(ip, s.op, s.offset, length);
  }

  lemma ReadInside(src: Bytes, ip0: nat, lencheck: int, ip: nat, length: nat)
    requires LengthRead(src, ip0, lencheck, ip, length, NoError) && lencheck <= |src|
    ensures ip < lencheck && (lencheck == |src| - LASTLITERALS + 1 ==> ip + LASTLITERALS <= |src|) && ip < |src|
  {
  }

  /** Byte after byte up to `cpy`, from `c` periods back. */
  method CopySingly(dst: array<Byte>, op1: nat, m1: nat, cpy: nat, ghost lo: nat, ghost offset: nat, ghost c: nat)
    requires cpy <= dst.Length && lo <= cpy && op1 <= dst.Length
    requires Periodic(dst[..], lo, op1, offset)
    requires c >= 1 && op1 - m1 == c * offset && m1 + offset >= lo
    modifies dst
    ensures Periodic(dst[..], lo, cpy, offset)
    ensures dst[..op1] == old(dst[..op1])
  {
    var op, m := op1, m1;
    PeriodsAtLeastOne(c, offset);
    while op < cpy
      invariant op1 <= op <= dst.Length && op - m == c * offset && m1 <= m
      invariant op1 <= cpy ==> op <= cpy
      invariant Periodic(dst[..], lo, op, offset)
      invariant dst[..op1] == old(dst[..op1])
      decreases cpy - op
    {
      ghost var s := dst[..];
      dst[op] := dst[m];
      assert BlockCopied(s, dst[..], op, m, 1);
      BlockExtends(s, dst[..], lo, op, m, 1, offset, c);
      assert dst[..op1] == dst[..op][..op1] && s[..op1] == s[..op][..op1];
      op, m := op + 1, m + 1;
    }
    Shorten(dst[..], lo, op, cpy, offset);
  }

  /** Copying a match near the end of the output: 8 bytes at a time as far as that is allowed, then singly. */
  method FinishMatchNearEnd(dst: array<Byte>, op0: nat, m0: nat, cpy: nat, ghost lo: nat, ghost period: nat,
                            ghost c: nat)
    requires cpy + LASTLITERALS <= dst.Length && op0 + MFLIMIT <= dst.Length && op0 + MINMATCH <= cpy
    requires op0 <= lo <= op0 + 1 && Periodic(dst[..], lo, op0 + 8, period)
    requires c >= 1 && op0 + 8 - m0 == c * period && m0 <= op0 && m0 + period >= lo
    modifies dst
    ensures Periodic(dst[..], lo, cpy, period)
    ensures dst[..lo] == old(dst[..lo])
  {
    var op, m := op0 + 8, m0;
    var oCopyLimit := dst.Length - (WILDCOPYLENGTH - 1);
    if op < oCopyLimit {
      WildCopy8(dst, op, m, oCopyLimit, lo, period, c);
      assert dst[..lo] == dst[..op][..lo];
      ghost var hi :| oCopyLimit <= hi && op <= hi <= dst.Length && Periodic(dst[..], lo, hi, period);
      Shorten(dst[..], lo, hi, oCopyLimit, period);
      m := m + (oCopyLimit - op);
      op := oCopyLimit;
    }
    ghost var s := dst[..];
    CopySingly(dst, op, m, cpy, lo, period, c);
    assert dst[..lo] == dst[..op][..lo] && s[..lo] == s[..op][..lo];
  }

  lemma PeriodsAtLeastOne(c: nat, offset: nat)
    requires c >= 1 && offset >= 1
    ensures c * offset >= 1
  {
  }

  /** Copying a match with room after it: 16 bytes, and more only when it is longer. */
  method FinishMatchInside(dst: array<Byte>, op0: nat, m: nat, cpy: nat, ghost lo: nat, ghost period: nat, ghost c: nat)
    requires op0 + MINMATCH <= cpy && cpy + MATCH_SAFEGUARD_DISTANCE <= dst.Length
    requires op0 <= lo <= op0 + 1 && Periodic(dst[..], lo, op0 + 8, period)
    requires c >= 1 && op0 + 8 - m == c * period && m <= op0 && m + period >= lo
    modifies dst
    ensures Periodic(dst[..], lo, cpy, period)
    ensures dst[..lo] == old(dst[..lo])
  {
    hide Periodic, BlockCopied;
    ghost var s := dst[..];
    CopyBlock(dst, op0 + 8, m, 8);
    BlockExtends(s, dst[..], lo, op0 + 8, m, 8, period, c);
    assert dst[..lo] == dst[..op0 + 8][..lo] && s[..lo] == s[..op0 + 8][..lo];
    ghost var hi := op0 + 16;
    if cpy - op0 > 16 {
      s := dst[..];
      WildCopy8(dst, op0 + 16, m + 8, cpy, lo, period, c);
      assert dst[..lo] == dst[..op0 + 16][..lo] && s[..lo] == s[..op0 + 16][..lo];
      hi :| cpy <= hi && op0 + 16 <= hi <= dst.Length && Periodic(dst[..], lo, hi, period);
    }
    Shorten(dst[..], lo, hi, cpy, period);
  }

  /** The match copy after safe_match_copy; it fails only when it would reach the last 5 bytes. */
  method MatchCopy(dst: array<Byte>, op: nat, offset: nat, length: nat) returns (ok: bool)
    requires offset <= op && op + MFLIMIT <= dst.Length && length >= MINMATCH
    modifies dst
    ensures ok <==> op + length + LASTLITERALS <= dst.Length
    ensures ok ==> dst[..op + length] == Copied(old(dst[..op]), offset, length)
  {
    hide CopyMatch, Periodic;
    var cpy := op + length;
    var m, lo, period, c := CopyFirst8(dst, op, offset);
    ghost var s := dst[..];
    if cpy > dst.Length - MATCH_SAFEGUARD_DISTANCE {
      if cpy > dst.Length - LASTLITERALS { return false; }
      FinishMatchNearEnd(dst, op, m, cpy, lo, period, c);
    } else {
      FinishMatchInside(dst, op, m, cpy, lo, period, c);
    }
    BegunStays(s, dst[..], op, offset, lo, period);
    BegunIsCopied(dst[..], op, cpy, cpy, offset, lo, period);
    assert dst[..][..cpy] == dst[..cpy] && dst[..][..op] == dst[..op];
    return true;
  }

  /** What the rest of a match copy leaves of its beginning. */
  lemma BegunStays(s: Bytes, s': Bytes, op: nat, offset: nat, lo: nat, period: nat)
    requires Begun(s, op, offset, lo, period) && lo <= |s| == |s'| && s'[..lo] == s[..lo]
    ensures Begun(s', op, offset, lo, period) && s'[..op] == s[..op]
  {
    assert s'[..op] == s'[..lo][..op] && s[..op] == s[..lo][..op];
    if offset == 0 { assert s'[op] == s'[..lo][op]; }
  }

  /** The label safe_match_copy. */
  method SafeMatchCopy(src: Bytes, dst: array<Byte>, s: State, ghost start: nat, ghost base: Bytes, ghost fast: bool)
    returns (s': State, ghost base': Bytes)
    requires s.AtMatch? && StateOk(src, dst[..], start, base, s, fast)
    requires OnGeneralPath(src, dst[..], start, base, s, fast)
    modifies dst
    ensures s'.Failed? || (s'.AtToken? && s'.ip == s.ip)
    ensures s.ip > start
    ensures StateOk(src, dst[..], s.ip, base', s', false)
  {
    hide Parse, Tracks, Refused, ParseHead, Copied, Roomy, Exempt, Stays;
    base' := [];
    assert dst[..s.op] == base + dst[|base|..s.op];
    MatchHead(src, start);
    if s.offset > s.op {
      RefuseSequence(src, start, base, dst.Length, fast);
      return Failed(s.ip), base';
    }
    ghost var out := dst[..s.op];
    var ok := MatchCopy(dst, s.op, s.offset, s.length);
    if !ok {
      RefuseSequence(src, start, base, dst.Length, fast);
      return Failed(s.ip), base';
    }
    Advance(src, dst.Length, start, base, fast);
    base' := dst[..s.op + s.length];
    return AtToken(s.ip, s.op + s.length), base';
  }

  lemma MatchHead(src: Bytes, start: nat)
    ensures ParseHead(src, start).HSequence? ==>
      ParseHead(src, start).matchLen >= MINMATCH && ParseHead(src, start).next > start
  {
  }

  // ---------- the main loop ----------

  /** A token and its literal length, without the shortcut. */
  method ReadLiteralLength(src: Bytes, dst: array<Byte>, s: State, ghost base: Bytes, ghost fast: bool)
    returns (s': State)
    requires s.AtToken? && StateOk(src, dst[..], s.ip, base, s, fast) && |src| < 0x8000_0000
    ensures StateOk(src, dst[..], s.ip, base, s', fast)
    ensures s'.AtLiterals? || s'.Failed?
    ensures src[s.ip] / 16 != RUN_MASK ==> s' == AtLiterals(s.ip + 1, s.op, src[s.ip] / 16, src[s.ip])
  {
    hide Parse, Tracks, Refused, LengthRead;
    var token := src[s.ip];
    var ip: nat, length: nat := s.ip + 1, token / 16;
    if length == RUN_MASK {
      hide LiteralsReady, ParseHead;
      var more, error;
      ip, more, error := ReadVariableLength(src, ip, |src| - RUN_MASK, true);
      LiteralLengthRead(src, s.ip, ip, more, error);
      if error == InitialError {
        RefuseBroken(src, s.ip, base, dst.Length, fast);
        return Failed(ip);
      }
      length := length + more;
    }
    return AtLiterals(ip, s.op, length, token);
  }

  /** One block of a match whose offset is at least the block. */
  method ExtendBlock(dst: array<Byte>, lo: nat, d: nat, offset: nat, n: nat)
    requires Periodic(dst[..], lo, d, offset) && n <= offset && d + n <= dst.Length
    modifies dst
    ensures Periodic(dst[..], lo, d + n, offset) && dst[..lo] == old(dst[..lo])
  {
    ghost var s := dst[..];
    CopyBlock(dst, d, d - offset, n);
    BlockExtends(s, dst[..], lo, d, d - offset, n, offset, 1);
    assert dst[..lo] == dst[..d][..lo] && s[..lo] == s[..d][..lo];
  }

  /** 18 bytes of a match that does not overlap itself within 8, as 8 + 8 + 2. */
  method CopyEighteen(dst: array<Byte>, op: nat, offset: nat, length: nat)
    requires 8 <= offset <= op && op + 18 <= dst.Length && MINMATCH <= length <= 18
    modifies dst
    ensures dst[..op + length] == CopyMatch(old(dst[..op]), offset, length)
  {
    hide CopyMatch;
    ExtendBlock(dst, op, op, offset, 8);
    ExtendBlock(dst, op, op + 8, offset, 8);
    ExtendBlock(dst, op, op + 16, offset, 2);
    Shorten(dst[..], op, op + 18, op + length, offset);
    PeriodicIsCopy(dst[..], op, op + length, offset);
    assert dst[..][..op + length] == dst[..op + length];
  }

  /** Short literals copied as 16 bytes. */
  method ShortLiterals(src: Bytes, dst: array<Byte>, s: State, ghost base: Bytes, ghost fast: bool) returns (s': State)
    requires s.AtToken? && StateOk(src, dst[..], s.ip, base, s, fast)
    requires src[s.ip] / 16 != RUN_MASK && s.ip + 1 + 16 < |src| && s.op + 14 + 18 <= dst.Length
    modifies dst
    ensures StateOk(src, dst[..], s.ip, base, s', fast)
    ensures s'.AtOffset? && s'.op <= s.op + 14 && s'.op == s.op + src[s.ip] / 16 && s'.token == src[s.ip]
    ensures s'.ip + 3 <= |src| && s'.ip == s.ip + 1 + src[s.ip] / 16
  {
    hide Parse, Tracks, ParseHead;
    var token := src[s.ip];
    var ip, op, length := s.ip + 1, s.op, token / 16;
    CopyIn(dst, op, src, ip, 16);
    TakeShort(dst[..], base, src, ip, length);
    return AtOffset(ip + length, op + length, token);
  }

  lemma TakeShort(buf: Bytes, base: Bytes, src: Bytes, ip: nat, length: nat)
    requires |base| + 16 <= |buf| && ip + 16 <= |src| && length <= 16
    requires buf[..|base| + 16] == base + src[ip..ip + 16]
    ensures buf[..|base|] == base && buf[|base|..|base| + length] == src[ip..ip + length]
  {
    assert buf[..|base|] == buf[..|base| + 16][..|base|];
    var written, read := buf[..|base| + 16], src[ip..ip + 16];
    assert written[|base|..] == read;
    assert buf[|base|..|base| + length] == written[|base|..][..length];
    assert src[ip..ip + length] == read[..length];
  }

  /** The second stage of a shortcut: a short, non-overlapping match, copied as 18 bytes. */
  method ShortMatch(src: Bytes, dst: array<Byte>, s: State, ghost start: nat, ghost base: Bytes)
    returns (s': State, ghost base': Bytes)
    requires s.AtCopyMatch? && StateOk(src, dst[..], start, base, s, false) && Roomy(src, start, |base|, dst.Length)
    requires s.token % 16 != ML_MASK && 8 <= s.offset <= s.op && s.op + 18 <= dst.Length
    modifies dst
    ensures s'.AtToken? && s'.ip == s.ip && s'.ip > start && s'.op == s.op + s.token % 16 + MINMATCH
    ensures StateOk(src, dst[..], s.ip, base', s', false)
  {
    hide Parse, Tracks, LiteralsDone, ParseHead, OffsetAt, CopyMatch, Roomy, Stays, Zeros;
    var length := s.token % 16 + MINMATCH;
    ghost var literals := dst[|base|..s.op];
    assert dst[..s.op] == base + literals;
    MatchLengthRead(src, dst.Length, start, base, s.ip - 2, literals, s.token, 0, s.ip, false);
    MatchHead(src, start);
    CopyEighteen(dst, s.op, s.offset, length);
    Advance(src, dst.Length, start, base, false);
    base' := dst[..s.op + length];
    return AtToken(s.ip, s.op + length), base';
  }

  /** Both stages of the shortcut apply to the token at `ip`. */
  predicate ShortcutTaken(src: Bytes, ip: nat, op: nat, cap: nat)
    requires ip < |src|
  {
    var lit := src[ip] / 16;
    && lit != RUN_MASK && ip + 1 < |src| - 14 - 2 && op + 14 + 18 <= cap
    && src[ip] % 16 != ML_MASK && 8 <= OffsetAt(src, ip + 1 + lit) <= op + lit
  }

  /** The top of the main loop: the two-stage shortcut, or the literal length. */
  method TokenStage(src: Bytes, dst: array<Byte>, s: State, ghost base: Bytes)
    returns (s': State, ghost start': nat, ghost base': Bytes)
    requires s.AtToken? && StateOk(src, dst[..], s.ip, base, s, false) && |src| < 0x8000_0000
    modifies dst
    ensures StateOk(src, dst[..], start', base', s', false) && OnGeneralPath(src, dst[..], start', base', s', false)
    ensures s'.AtToken? || s'.AtLiterals? || s'.AtCopyMatch? || s'.Failed?
    ensures if s'.AtToken? then s.ip < start' == s'.ip else start' == s.ip
    ensures s.ip < |src|
    ensures ShortcutTaken(src, s.ip, s.op, dst.Length) ==>
      s' == AtToken(s.ip + 1 + src[s.ip] / 16 + 2, s.op + src[s.ip] / 16 + src[s.ip] % 16 + MINMATCH)
    ensures src[s.ip] / 16 != RUN_MASK && s.ip + 1 >= |src| - 14 - 2 ==>
      s' == AtLiterals(s.ip + 1, s.op, src[s.ip] / 16, src[s.ip])
  {
    hide StateOk, Leaves, Exempt;
    TokenInside(src, dst[..], s, base, false);
    start', base' := s.ip, base;
    var shortiend, shortoend := |src| - 14 - 2, dst.Length - 14 - 18;
    if src[s.ip] / 16 != RUN_MASK && s.ip + 1 < shortiend && s.op <= shortoend {
      s' := ShortLiterals(src, dst, s, base, false);
      s' := GetOffset(src, dst, s', s.ip, base, false);
      if s'.token % 16 != ML_MASK && s'.offset >= 8 && s'.offset <= s'.op {
        s', base' := ShortMatch(src, dst, s', s.ip, base);
        start' := s'.ip;
      }
      return;
    }
    s' := ReadLiteralLength(src, dst, s, base, false);
  }

  lemma TokenInside(src: Bytes, buf: Bytes, s: State, base: Bytes, fast: bool)
    requires s.AtToken? && StateOk(src, buf, s.ip, base, s, fast)
    ensures s.ip < |src| && s.op == |base| <= |buf|
  {
  }

  /** Stages left in the current sequence. */
  function StagesLeft(s: State): nat {
    match s
    case AtToken(_, _) => 4
    case AtLiterals(_, _, _, _) => 3
    case AtOffset(_, _, _) => 2
    case AtCopyMatch(_, _, _, _) => 1
    case _ => 0
  }

  lemma StartInside(src: Bytes, buf: Bytes, start: nat, base: Bytes, s: State, fast: bool)
    requires StateOk(src, buf, start, base, s, fast) && !s.Failed? && !s.Finished?
    ensures start < |src|
  {
  }

  /** The main loop from any label, until the block ends or is refused. */
  method MainLoop(src: Bytes, dst: array<Byte>, s0: State, ghost start0: nat, ghost base0: Bytes, ghost fast0: bool)
    returns (s: State)
    requires StateOk(src, dst[..], start0, base0, s0, fast0) && OnGeneralPath(src, dst[..], start0, base0, s0, fast0)
    requires |src| < 0x8000_0000
    modifies dst
    ensures s.Finished? || s.Failed?
    ensures exists start, base, fast :: StateOk(src, dst[..], start, base, s, fast)
  {
    hide StateOk, OnGeneralPath;
    s := s0;
    ghost var start, base, fast := start0, base0, fast0;
    while !s.Finished? && !s.Failed?
      invariant StateOk(src, dst[..], start, base, s, fast) && OnGeneralPath(src, dst[..], start, base, s, fast)
      decreases |src| - start, StagesLeft(s)
    {
      StartInside(src, dst[..], start, base, s, fast);
      match s
      case AtToken(ip, _) =>
        TokenStart(src, dst[..], start, base, s, fast);
        TokenIsSlow(src, dst[..], start, base, s, fast);
        s, start, base := TokenStage(src, dst, s, base);
      case AtLiterals(_, _, _, _) => s := SafeLiteralCopy(src, dst, s, start, base, fast);
      case AtOffset(_, _, _) => s := GetOffset(src, dst, s, start, base, fast);
      case AtCopyMatch(_, _, _, _) => s := CopyMatchLength(src, dst, s, start, base, fast);
      case AtMatch(ip, _, _, _) =>
        s, base := SafeMatchCopy(src, dst, s, start, base, fast);
        start, fast := ip, false;
        AfterMatch(src, dst[..], start, base, s);
    }
  }

  lemma TokenIsSlow(src: Bytes, buf: Bytes, start: nat, base: Bytes, s: State, fast: bool)
    requires s.AtToken? && OnGeneralPath(src, buf, start, base, s, fast)
    ensures !fast
  {
  }

  lemma AfterMatch(src: Bytes, buf: Bytes, start: nat, base: Bytes, s: State)
    requires s.Failed? || s.AtToken?
    ensures OnGeneralPath(src, buf, start, base, s, false)
  {
  }

  lemma TokenStart(src: Bytes, buf: Bytes, start: nat, base: Bytes, s: State, fast: bool)
    requires StateOk(src, buf, start, base, s, fast) && s.AtToken?
    ensures start == s.ip
  {
  }

  // ---------- the fast loop ----------

  /** Literals in the fast loop: 16 or 32 bytes at a time, or over to the safe copy. */
  method FastLiterals(src: Bytes, dst: array<Byte>, s: State, ghost base: Bytes) returns (s': State)
    requires s.AtToken? && StateOk(src, dst[..], s.ip, base, s, true) && |src| < 0x8000_0000
    requires s.op + FASTLOOP_SAFE_DISTANCE <= dst.Length
    modifies dst
    ensures StateOk(src, dst[..], s.ip, base, s', true)
    ensures s'.AtLiterals? ==> OnGeneralPath(src, dst[..], s.ip, base, s', true)
    ensures s'.AtOffset? ==> s.ip < |src| && StaysForLiterals(src, s.ip, |base|, dst.Length)
    ensures s'.AtLiterals? || s'.AtOffset? || s'.Failed?
    ensures s'.AtOffset? ==> s'.op + 32 <= dst.Length
  {
    hide StateOk, Leaves, LiteralField;
    TokenInside(src, dst[..], s, base, true);
    if src[s.ip] / 16 == RUN_MASK {
      s' := ReadLiteralLength(src, dst, s, base, true);
      if s'.AtLiterals? {
        if s'.op + s'.length > dst.Length - 32 || s'.ip + s'.length > |src| - 32 {
          LeavesForLongLiterals(src, dst[..], s', s.ip, base);
        } else {
          s' := FastLongLiterals(src, dst, s', s.ip, base);
        }
      }
    } else if s.ip + 1 > |src| - (16 + 1) {
      s' := ReadLiteralLength(src, dst, s, base, true);
      LeavesForShortLiterals(src, s.ip, base, dst.Length);
    } else {
      s' := ShortLiterals(src, dst, s, base, true);
    }
  }

  method FastLongLiterals(src: Bytes, dst: array<Byte>, s: State, ghost start: nat, ghost base: Bytes)
    returns (s': State)
    requires s.AtLiterals? && StateOk(src, dst[..], start, base, s, true) && src[start] / 16 == RUN_MASK
    requires s.op + s.length + 32 <= dst.Length && s.ip + s.length + 32 <= |src|
    modifies dst
    ensures start < |src| && StaysForLiterals(src, start, |base|, dst.Length)
    ensures StateOk(src, dst[..], start, base, s', true) && s'.AtOffset? && s'.op + 32 <= dst.Length
  {
    hide Parse, Tracks, LiteralField, ParseHead, Roomy;
    var cpy := s.op + s.length;
    WildCopyIn(dst, s.op, src, s.ip, cpy, 32);
    assert dst[s.op..cpy] == src[s.ip..s.ip + s.length];
    return AtOffset(s.ip + s.length, cpy, s.token);
  }

  /** The match length in the fast loop; for a long one the offset is checked first. */
  method FastMatchLength(src: Bytes, dst: array<Byte>, s: State, ghost start: nat, ghost base: Bytes)
    returns (s': State)
    requires s.AtCopyMatch? && StateOk(src, dst[..], start, base, s, true)
    ensures StateOk(src, dst[..], start, base, s', true)
    ensures s'.Failed? || (s'.AtMatch? && s'.op == s.op && s'.offset == s.offset)
    ensures s'.AtMatch? && s.token % 16 != ML_MASK ==> s'.length == s.token % 16 + MINMATCH && s'.ip == s.ip
  {
    hide Parse, Tracks, AfterRun, Refused, ParseHead, OffsetAt, Roomy, OnGeneralPath;
    if s.token % 16 == ML_MASK && s.offset > s.op {
      FarOffset(src, dst[..], s, start, base);
      return Failed(s.ip);
    }
    s' := CopyMatchLength(src, dst, s, start, base, true);
  }

  /** An offset before the start of the output refuses the block whatever the match length is. */
  lemma FarOffset(src: Bytes, buf: Bytes, s: State, start: nat, base: Bytes)
    requires s.AtCopyMatch? && StateOk(src, buf, start, base, s, true) && s.offset > s.op
    ensures Refused(src, |buf|)
  {
    hide Parse, LiteralField, OffsetAt, Refused, Tracks, Roomy, Exempt;
    assert ParseHead(src, start) == AfterLiterals(src, s.token, buf[|base|..s.op], s.ip - 2);
    var h := ParseHead(src, start);
    if h.HSequence? {
      RefuseSequence(src, start, base, |buf|, true);
    } else {
      RefuseBroken(src, start, base, |buf|, true);
    }
  }

  /** A match the fast loop copies itself: overlapping ones by pattern, others 32 bytes at a time. */
  method FastMatchCopy(src: Bytes, dst: array<Byte>, s: State, ghost start: nat, ghost base: Bytes)
    returns (s': State, ghost base': Bytes)
    requires s.AtMatch? && StateOk(src, dst[..], start, base, s, true)
    requires start < |src| && StaysForLiterals(src, start, |base|, dst.Length)
    requires s.op + s.length + FASTLOOP_SAFE_DISTANCE < dst.Length
    modifies dst
    ensures s'.Failed? || (s'.AtToken? && s'.ip == s.ip && s'.op == s.op + s.length)
    ensures s.ip > start
    ensures StateOk(src, dst[..], s.ip, base', s', true)
  {
    hide Parse, Tracks, Refused, ParseHead, CopyMatch, Roomy, StaysForLiterals, Zeros;
    base' := [];
    assert dst[..s.op] == base + dst[|base|..s.op];
    MatchHead(src, start);
    if s.offset > s.op {
      RefuseSequence(src, start, base, dst.Length, true);
      return Failed(s.ip), base';
    }
    if s.length <= 18 && s.offset >= 8 {
      CopyEighteen(dst, s.op, s.offset, s.length);
    } else {
      FastCopy(dst, s.op, s.offset, s.length);
    }
    Advance(src, dst.Length, start, base, true);
    base' := dst[..s.op + s.length];
    return AtToken(s.ip, s.op + s.length), base';
  }

  method FastCopy(dst: array<Byte>, op: nat, offset: nat, length: nat)
    requires offset <= op && length >= MINMATCH && op + length + 32 <= dst.Length
    modifies dst
    ensures dst[..op + length] == Copied(old(dst[..op]), offset, length)
  {
    hide CopyMatch;
    var cpy := op + length;
    if offset < 16 {
      MemcpyUsingOffset(dst, op, offset, cpy);
    } else {
      WildCopy32(dst, op, op - offset, cpy, op, offset);
      ghost var hi :| cpy <= hi && op <= hi <= dst.Length && Periodic(dst[..], op, hi, offset);
      BegunIsCopied(dst[..], op, cpy, hi, offset, op, offset);
      assert dst[..][..cpy] == dst[..cpy] && dst[..][..op] == dst[..op];
    }
  }

  lemma LeavesForLongLiterals(src: Bytes, buf: Bytes, s: State, start: nat, base: Bytes)
    requires s.AtLiterals? && StateOk(src, buf, start, base, s, true) && src[start] / 16 == RUN_MASK
    requires s.op + s.length > |buf| - 32 || s.ip + s.length > |src| - 32
    ensures !Roomy(src, start, |base|, |buf|) && Leaves(src, start, base, |buf|)
  {
    hide Parse, Tracks, LiteralField;
  }

  lemma LeavesForShortLiterals(src: Bytes, start: nat, base: Bytes, cap: nat)
    requires start < |src| && src[start] / 16 != RUN_MASK && start + 1 > |src| - (16 + 1)
    ensures !Roomy(src, start, |base|, cap) && Leaves(src, start, base, cap)
  {
  }

  lemma LeavesForMatch(src: Bytes, buf: Bytes, s: State, start: nat, base: Bytes)
    requires s.AtMatch? && StateOk(src, buf, start, base, s, true) && s.op + s.length >= |buf| - FASTLOOP_SAFE_DISTANCE
    ensures OnGeneralPath(src, buf, start, base, s, true)
  {
    hide Parse, Tracks, ParseHead, StaysForLiterals;
  }

  lemma FailedIsGeneral(src: Bytes, buf: Bytes, start: nat, base: Bytes, s: State, fast: bool)
    requires s.Failed? || s.Finished?
    ensures OnGeneralPath(src, buf, start, base, s, fast)
  {
  }

  /** The fast loop: whole sequences while 64 bytes of output remain, then over to the main loop. */
  method FastLoop(src: Bytes, dst: array<Byte>, s0: State, ghost base0: Bytes)
    returns (s: State, ghost start: nat, ghost base: Bytes)
    requires s0.AtToken? && StateOk(src, dst[..], s0.ip, base0, s0, true) && |src| < 0x8000_0000
    requires s0.op + FASTLOOP_SAFE_DISTANCE <= dst.Length
    modifies dst
    ensures StateOk(src, dst[..], start, base, s, true) && OnGeneralPath(src, dst[..], start, base, s, true)
  {
    hide StateOk, OnGeneralPath, StaysForLiterals;
    s, start, base := s0, s0.ip, base0;
    while true
      invariant s.AtToken? && StateOk(src, dst[..], start, base, s, true)
      invariant s.op + FASTLOOP_SAFE_DISTANCE <= dst.Length
      decreases |src| - start
    {
      TokenStart(src, dst[..], start, base, s, true);
      TokenInside(src, dst[..], s, base, true);
      s := FastLiterals(src, dst, s, base);
      if !s.AtOffset? {
        if s.Failed? { FailedIsGeneral(src, dst[..], start, base, s, true); }
        return;
      }
      s := GetOffset(src, dst, s, start, base, true);
      s := FastMatchLength(src, dst, s, start, base);
      if !s.AtMatch? {
        FailedIsGeneral(src, dst[..], start, base, s, true);
        return;
      }
      if s.op + s.length >= dst.Length - FASTLOOP_SAFE_DISTANCE {
        LeavesForMatch(src, dst[..], s, start, base);
        return;
      }
      ghost var ip := s.ip;
      s, base := FastMatchCopy(src, dst, s, start, base);
      start := ip;
      if s.Failed? {
        FailedIsGeneral(src, dst[..], start, base, s, true);
        return;
      }
    }
  }

  // ---------- the whole decoder ----------

  lemma StartState(src: Bytes, buf: Bytes)
    requires src != []
    ensures StateOk(src, buf, 0, [], AtToken(0, 0), |buf| >= FASTLOOP_SAFE_DISTANCE)
  {
    hide ParseHead, Passes;
  }

  lemma EmptyOutput(src: Bytes)
    ensures src == [0] ==> Parse(src, 0).Parsed? && Expand(Parse(src, 0).block, []) == Some([])
    ensures src == [] ==> Parse(src, 0) == Malformed && forall cap :: !Strict(src, 0, 0, cap) && !Taken(src, cap)
  {
    if src == [0] {
      assert ParseHead(src, 0) == HLast(src[1..]);
      assert src[1..] == [] && [] + src[1..] == [];
    }
  }

  /**
   LZ4_decompress_safe. A non-negative result is the size of what the block decodes to with its lengths
   summed in 32 bits, and that is what the output then holds. It is what the format means exactly if no
   length is continued to 2^32 or more and no offset is zero. The result is non-negative exactly for the
   blocks that `Accepts` describes, among them every block the general path takes. With an output of size
   zero only the one-byte block 0 is accepted. Every write is inside the output.
   */
  method DecompressSafe(src: Bytes, dst: array<Byte>) returns (n: int)
    requires |src| < 0x8000_0000
    modifies dst
    ensures n >= 0 ==>
      && n <= dst.Length && Parse(src, 0).Parsed?
      && Expand(Parse(src, 0).block, []) == Some(dst[..n])
    ensures n >= 0 ==> (Meaning(src) == Some(dst[..n]) <==> SumsFit(src, 0) && OffsetsPositive(Parse(src, 0).block))
    ensures dst.Length > 0 ==> (n >= 0 <==> Taken(src, dst.Length))
    ensures dst.Length > 0 && Strict(src, 0, 0, dst.Length) ==> n >= 0
    ensures dst.Length == 0 ==> (n >= 0 <==> src == [0])
  {
    if Strict(src, 0, 0, dst.Length) { StrictIsAccepted(src, 0, 0, dst.Length, dst.Length >= FASTLOOP_SAFE_DISTANCE); }
    assert Strict(src, 0, 0, dst.Length) ==> Taken(src, dst.Length);
    hide Parse, StateOk, Expand, Strict, Taken, OnGeneralPath, SumsFit, Meaning, OffsetsPositive;
    if dst.Length == 0 {
      EmptyOutput(src);
      if src == [0] { MeaningExactly(src, []); }
      return if |src| == 1 && src[0] == 0 then 0 else -1;
    }
    if |src| == 0 {
      EmptyOutput(src);
      return -1;
    }
    StartState(src, dst[..]);
    var s := AtToken(0, 0);
    ghost var start: nat, base: Bytes, fast := 0, [], dst.Length >= FASTLOOP_SAFE_DISTANCE;
    if dst.Length >= FASTLOOP_SAFE_DISTANCE {
      s, start, base := FastLoop(src, dst, s, base);
    } else {
      AfterMatch(src, dst[..], start, base, s);
    }
    s := MainLoop(src, dst, s, start, base, fast);
    start, base, fast :| StateOk(src, dst[..], start, base, s, fast);
    EndState(src, dst[..], start, base, s, fast);
    if s.Finished? {
      n := s.op;
      MeaningExactly(src, dst[..n]);
    } else {
      n := s.ip;
      n := -n - 1;
    }
  }

  lemma EndState(src: Bytes, buf: Bytes, start: nat, base: Bytes, s: State, fast: bool)
    requires StateOk(src, buf, start, base, s, fast)
    ensures s.Finished? ==>
      s.op <= |buf| && Parse(src, 0).Parsed? && Expand(Parse(src, 0).block, []) == Some(buf[..s.op])
    ensures s.Finished? ==> Taken(src, |buf|)
    ensures s.Failed? ==> !Taken(src, |buf|)
  {
    hide Taken, Parse, Expand;
  }

  // ---------- where a wrapped length is taken ----------

  /** The format gives this block no meaning, and the decoder takes it: the length wraps to that of the 15 literals. */
  method WrappedBlockIsTaken(l: Bytes, dst: array<Byte>) returns (n: int)
    requires |l| == 15 && dst.Length >= 15
    modifies dst
    ensures n == 15 && dst[..15] == l
    ensures Parse(WrappedBlock(l), 0, Unbounded) == Malformed && !SumsFit(WrappedBlock(l), 0)
  {
    WrappedBlockDiffers(l);
    assert Strict(WrappedBlock(l), 0, 0, dst.Length);
    assert Expand(Last(l), []) == Some([] + l) && [] + l == l;
    assert OffsetsPositive(Last(l));
    hide WrappedBlock, Parse, Strict, Taken, SumsFit, Expand;
    n := DecompressSafe(WrappedBlock(l), dst);
  }

  /** So is one with a zero offset: the match becomes zeros. */
  method ZeroOffsetIsTaken(dst: array<Byte>) returns (n: int)
    requires dst.Length >= 13
    modifies dst
    ensures n == 11 && dst[..11] == [97, 0, 0, 0, 0, 0, 1, 2, 3, 4, 5]
    ensures Meaning(ZERO_OFFSET) == None && SumsFit(ZERO_OFFSET, 0)
  {
    ZeroOffsetDiffers();
    ShortBlocksFit(ZERO_OFFSET, 0);
    assert Strict(ZERO_OFFSET, 4, 6, dst.Length) by { hide ParseHead; }
    assert Strict(ZERO_OFFSET, 0, 0, dst.Length) by { hide ParseHead; }
    hide Parse, Strict, Taken, SumsFit, Expand, Meaning;
    n := DecompressSafe(ZERO_OFFSET, dst);
  }

  // ---------- where the shortcut goes further than the general path ----------

  /** 14 literals, a match of 18 at offset 14, and an empty last run: the end-of-block conditions are broken. */
  const SHORT_TAIL: Bytes := [238, 1, 2, 3, 4, 5, 6, 7, 8, 9, 10, 11, 12, 13, 14, 14, 0, 0]

  lemma ShortTailHead()
    ensures LiteralField(SHORT_TAIL, 0) == Some((14, 1))
    ensures var h := ParseHead(SHORT_TAIL, 0);
      h.HSequence? && |h.literals| == 14 && h.litEnd == 15 && h.offset == 14 && h.matchLen == 18 && h.next == 17
  {
    assert OffsetAt(SHORT_TAIL, 15) == 14;
  }

  lemma ShortTailParses()
    ensures Parse(SHORT_TAIL, 0).Parsed?
    ensures !Conformant(Parse(SHORT_TAIL, 0).block)
    ensures forall cap :: !Strict(SHORT_TAIL, 0, 0, cap)
  {
    hide ParseHead;
    ShortTailHead();
    ShortTailLast();
    var rest := Parse(SHORT_TAIL, 17);
    assert rest == Parsed(Last([]));
  }

  lemma ShortTailLast()
    ensures ParseHead(SHORT_TAIL, 17) == HLast([])
  {
    assert SHORT_TAIL[18..] == [];
  }

  /**
   The shortcut takes a block that the general path refuses for every buffer: with room for 32 bytes its
   two stages copy the literals and the match, and the empty last run then ends the input.
   */
  method ShortcutGoesFurther(dst: array<Byte>) returns (n: int)
    requires dst.Length == 32
    modifies dst
    ensures n == 32 && !Strict(SHORT_TAIL, 0, 0, 32) && !Conformant(Parse(SHORT_TAIL, 0).block)
    ensures Expand(Parse(SHORT_TAIL, 0).block, []) == Some(dst[..32])
  {
    hide StateOk, OnGeneralPath, Strict, Parse, Expand, Conformant, Taken;
    ShortTailParses();
    StartState(SHORT_TAIL, dst[..]);
    assert ShortcutTaken(SHORT_TAIL, 0, 0, 32) by { assert OffsetAt(SHORT_TAIL, 15) == 14; }
    var s, start, base := TokenStage(SHORT_TAIL, dst, AtToken(0, 0), []);
    assert s == AtToken(17, 32);
    s, start, base := TokenStage(SHORT_TAIL, dst, s, base);
    assert s == AtLiterals(18, 32, 0, 0);
    s := SafeLiteralCopy(SHORT_TAIL, dst, s, start, base, false);
    EndState(SHORT_TAIL, dst[..], start, base, s, false);
    n := s.op;
  }
}
