/**
 LZ4_compress_generic_validated and its callers, without dictionary: a hash table of earlier positions,
 backward catch-up, word-wise match length, and an output buffer written with overruns.
 */
module Lz4Compress {
  import opened Values
  import opened Wrappers
  import opened Lz4Format
  import opened Lz4Greedy
  import Lz4Copy
  import Lz4Count

  /** LZ4_compressBound. */
  function CompressBound(n: nat): nat {
    if n > MAX_INPUT_SIZE then 0 else n + n / 255 + 16
  }

  // ---------- the hash table ----------

  /** LZ4_putIndexOnHash: every position fits the entry. */
  method PutIndex(src: Bytes, table: array<nat>, tt: TableType, hash: Bytes -> nat, h: nat, index: nat)
    requires index + 8 <= |src| && Addressable(tt, |src|) && HashFits(hash, table.Length)
    requires h == hash(Window(src, index, tt)) && (tt == ByU16 ==> index < 65536)
    modifies table
    ensures table[..] == Remember(src, old(table[..]), tt, hash, index)
  {
    hide Window;
    table[h] := Stored(tt, index);
  }

  /**
   Look for an earlier position with the same 4 bytes, in growing steps. If none is found, then no position
   the search looks at has a candidate that is near enough and starts with the same 4 bytes.
   */
  method FindMatch(src: Bytes, table: array<nat>, tt: TableType, hash: Bytes -> nat, ip0: nat, acceleration: nat)
    returns (found: bool, ip: nat, match_: nat)
    requires Ready(src, table[..], tt, hash, acceleration, ip0) && Addressable(tt, |src|)
    requires ip0 + (MFLIMIT - 1) <= |src|
    modifies table
    ensures Searched(src, old(table[..]), tt, hash, ip0, acceleration) ==
      if found then Some(Stop(ip, match_, table[..])) else None
    ensures !found ==>
      forall j: nat :: Looked(src, ip0, acceleration, j) ==> !HitOn(src, old(table[..]), tt, hash, ip0, acceleration, j)
  {
    hide Visit, Filled, FirstHit, Window, HitOn;
    ghost var t0 := table[..];
    var mflimitPlusOne := |src| - (MFLIMIT - 1);
    var forwardIp, step, searchMatchNb := ip0, 1, acceleration * SKIP_TRIGGER_ROUNDS;
    var forwardH := hash(Window(src, forwardIp, tt));
    ghost var i: nat := 0;
    SearchBegins(src, t0, tt, hash, ip0, acceleration);
    while true
      invariant forwardIp == Visit(ip0, acceleration, i) <= mflimitPlusOne
      invariant searchMatchNb == acceleration * SKIP_TRIGGER_ROUNDS + i
      invariant step == Visit(ip0, acceleration, i + 1) - Visit(ip0, acceleration, i)
      invariant forwardH == hash(Window(src, forwardIp, tt))
      invariant table[..] == Filled(src, t0, tt, hash, ip0, acceleration, i)
      invariant FirstHit(src, t0, tt, hash, ip0, acceleration, 0) == FirstHit(src, t0, tt, hash, ip0, acceleration, i)
      decreases |src| - forwardIp
    {
      SearchTurn(src, t0, tt, hash, ip0, acceleration, i);
      var h, current := forwardH, forwardIp;
      var matchIndex := table[h];
      ghost var stop := StopAt(src, table[..], tt, hash, current);
      assert matchIndex == table[..][h] == stop.m;
      ip := forwardIp;
      forwardIp := forwardIp + step;
      step := searchMatchNb / SKIP_TRIGGER_ROUNDS;
      searchMatchNb := searchMatchNb + 1;
      if forwardIp > mflimitPlusOne {
        NothingFound(src, t0, tt, hash, ip0, acceleration);
        return false, ip, 0;
      }
      match_ := matchIndex;
      forwardH := hash(Window(src, forwardIp, tt));
      PutIndex(src, table, tt, hash, h, current);
      if (tt == ByU16 || current <= matchIndex + DISTANCE_MAX)
        && src[match_..match_ + MINMATCH] == src[ip..ip + MINMATCH] {
        assert Searched(src, t0, tt, hash, ip0, acceleration) == Some(stop);
        return true, ip, match_;
      }
      i := i + 1;
    }
  }

  lemma SearchBegins(src: Bytes, table: seq<nat>, tt: TableType, hash: Bytes -> nat, ip: nat, acc: nat)
    requires Ready(src, table, tt, hash, acc, ip) && ip + (MFLIMIT - 1) <= |src|
    ensures Visit(ip, acc, 0) == ip && Visit(ip, acc, 1) == ip + 1 && Filled(src, table, tt, hash, ip, acc, 0) == table
  {
  }

  /** One turn of the search: what it compares, and how far it goes next. */
  lemma SearchTurn(src: Bytes, table: seq<nat>, tt: TableType, hash: Bytes -> nat, ip: nat, acc: nat, i: nat)
    requires Ready(src, table, tt, hash, acc, ip) && Visit(ip, acc, i) + (MFLIMIT - 1) <= |src|
    ensures var p, t := Visit(ip, acc, i), Filled(src, table, tt, hash, ip, acc, i);
      && p < Visit(ip, acc, i + 1)
      && Visit(ip, acc, i + 2) - Visit(ip, acc, i + 1) == (acc * SKIP_TRIGGER_ROUNDS + i) / SKIP_TRIGGER_ROUNDS
      && Candidate(src, t, tt, hash, p) < p
      && (Looked(src, ip, acc, i) ==>
            && Filled(src, table, tt, hash, ip, acc, i + 1) == Remember(src, t, tt, hash, p)
            && FirstHit(src, table, tt, hash, ip, acc, i)
                 == if Hit(src, t, tt, hash, p) then Some(i) else FirstHit(src, table, tt, hash, ip, acc, i + 1))
      && (!Looked(src, ip, acc, i) ==> FirstHit(src, table, tt, hash, ip, acc, i) == None)
  {
    VisitGrows(ip, acc, i);
    FilledBelow(src, table, tt, hash, ip, acc, i);
  }

  lemma NothingFound(src: Bytes, table: seq<nat>, tt: TableType, hash: Bytes -> nat, ip: nat, acc: nat)
    requires Ready(src, table, tt, hash, acc, ip) && ip + (MFLIMIT - 1) <= |src|
    requires FirstHit(src, table, tt, hash, ip, acc, 0) == None
    ensures forall j: nat :: Looked(src, ip, acc, j) ==> !HitOn(src, table, tt, hash, ip, acc, j)
  {
    hide FirstHit, HitOn;
    forall j: nat | Looked(src, ip, acc, j) ensures !HitOn(src, table, tt, hash, ip, acc, j) {
      FirstHitIsFirst(src, table, tt, hash, ip, acc, 0, j);
    }
  }

  /** After a match: remember two positions and see whether another match starts right here. */
  method TestNext(src: Bytes, table: array<nat>, tt: TableType, hash: Bytes -> nat, ip: nat)
    returns (found: bool, match_: nat)
    requires MIN_LENGTH <= |src| && Addressable(tt, |src|) && HashFits(hash, table.Length)
    requires 2 <= ip && ip + MFLIMIT <= |src| && Below(table[..], ip)
    modifies table
    ensures var t := Remember(src, old(table[..]), tt, hash, ip - 2);
      && table[..] == Remember(src, t, tt, hash, ip)
      && match_ == Candidate(src, t, tt, hash, ip)
      && found == Hit(src, t, tt, hash, ip)
  {
    hide Window;
    PutIndex(src, table, tt, hash, hash(Window(src, ip - 2, tt)), ip - 2);
    var h := hash(Window(src, ip, tt));
    match_ := table[h];
    assert match_ == table[..][h] < ip;
    PutIndex(src, table, tt, hash, h, ip);
    found := (tt == ByU16 || ip <= match_ + DISTANCE_MAX) && src[match_..match_ + MINMATCH] == src[ip..ip + MINMATCH];
  }

  /** Move a match back over equal bytes, as far as the last match. */
  method CatchUp(src: Bytes, anchor: nat, ip0: nat, match0: nat) returns (ip: nat, match_: nat)
    requires match0 < ip0 <= |src| && anchor <= ip0
    ensures var k := Backed(src, anchor, ip0, match0); ip == ip0 - k && match_ == match0 - k
  {
    ip, match_ := ip0, match0;
    while ip > anchor && match_ > 0 && src[ip - 1] == src[match_ - 1]
      invariant anchor <= ip <= ip0 && ip - match_ == ip0 - match0
      invariant Backed(src, anchor, ip0, match0) == (ip0 - ip) + Backed(src, anchor, ip, match_)
      decreases ip
    {
      ip, match_ := ip - 1, match_ - 1;
    }
  }

  // ---------- writing ----------

  /** The continuation bytes of a length, one at a time. */
  method WriteExtension(dst: array<Byte>, op0: nat, len: nat) returns (op: nat)
    requires op0 + len / 255 + 1 <= dst.Length
    modifies dst
    ensures op == op0 + len / 255 + 1 && dst[..op] == old(dst[..op0]) + Extension(len)
  {
    op := op0;
    var left := len;
    while left >= 255
      invariant op0 <= op && op + left / 255 == op0 + len / 255
      invariant dst[..op] + Extension(left) == old(dst[..op0]) + Extension(len)
      decreases left
    {
      ghost var was := dst[..op];
      dst[op] := 255;
      assert dst[..op + 1] == was + [255];
      assert was + Extension(left) == dst[..op + 1] + Extension(left - 255);
      op, left := op + 1, left - 255;
    }
    ghost var was := dst[..op];
    dst[op] := left;
    assert dst[..op + 1] == was + [left];
    op := op + 1;
  }

  lemma FourTimes255(len: nat)
    requires len >= 1020
    ensures Extension(len) == [255, 255, 255, 255] + Extension(len - 1020)
  {
    assert Extension(len) == [255] + Extension(len - 255);
    assert Extension(len - 255) == [255] + Extension(len - 510);
    assert Extension(len - 510) == [255] + Extension(len - 765);
    assert Extension(len - 765) == [255] + Extension(len - 1020);
  }

  lemma ShortExtension(len: nat)
    requires len < 1020
    ensures Extension(len) == [255, 255, 255, 255][..len / 255] + [len % 255]
  {
    if len >= 255 {
      assert Extension(len) == [255] + Extension(len - 255);
      if len >= 510 {
        assert Extension(len - 255) == [255] + Extension(len - 510);
        if len >= 765 { assert Extension(len - 510) == [255] + Extension(len - 765); }
      }
    }
  }

  method Write32Ones(dst: array<Byte>, op: nat)
    requires op + 4 <= dst.Length
    modifies dst
    ensures dst[..op] == old(dst[..op]) && dst[op..op + 4] == [255, 255, 255, 255]
  {
    dst[op], dst[op + 1], dst[op + 2], dst[op + 3] := 255, 255, 255, 255;
  }

  /** The continuation bytes of a match length, four at a time; up to 3 bytes after the last are overwritten. */
  method WriteMatchExtension(dst: array<Byte>, op0: nat, len: nat) returns (op: nat)
    requires op0 + len / 255 + 4 <= dst.Length
    modifies dst
    ensures op == op0 + len / 255 + 1 && dst[..op] == old(dst[..op0]) + Extension(len)
  {
    op := op0;
    var left := len;
    Write32Ones(dst, op);
    while left >= 1020
      invariant op0 <= op && op + left / 255 == op0 + len / 255
      invariant dst[..op] + Extension(left) == old(dst[..op0]) + Extension(len)
      invariant op + 4 <= dst.Length && dst[op..op + 4] == [255, 255, 255, 255]
      decreases left
    {
      FourTimes255(left);
      ghost var was := dst[..op + 4];
      assert was == dst[..op] + dst[op..op + 4];
      op := op + 4;
      Write32Ones(dst, op);
      left := left - 1020;
    }
    op := WriteShortExtension(dst, op, left);
  }

  /** The end of the continuation, over bytes that are already 255. */
  method WriteShortExtension(dst: array<Byte>, op0: nat, left: nat) returns (op: nat)
    requires left < 1020 && op0 + 4 <= dst.Length && dst[op0..op0 + 4] == [255, 255, 255, 255]
    modifies dst
    ensures op == op0 + left / 255 + 1 && dst[..op] == old(dst[..op0]) + Extension(left)
  {
    ShortExtension(left);
    hide Extension;
    op := op0 + left / 255;
    ghost var was := dst[..op];
    assert was == dst[..op0] + dst[op0..op0 + 4][..left / 255];
    dst[op] := left % 255;
    assert dst[..op + 1] == was + [left % 255];
    op := op + 1;
  }

  /** LZ4_wildCopy8 of literals: 8 bytes at a time, over up to 7 bytes too many. */
  method CopyLiterals(src: Bytes, dst: array<Byte>, op: nat, anchor: nat, len: nat)
    requires anchor + len + 8 <= |src|
    requires op + (if len == 0 then 8 else len + 7) <= dst.Length
    modifies dst
    ensures dst[..op + len] == old(dst[..op]) + src[anchor..anchor + len]
  {
    var k := CopyEight(src, dst, op, anchor, 0);
    assert dst[..op + k] == old(dst[..op]) + src[anchor..anchor + k];
    while k < len
      invariant k <= (if len == 0 then 8 else len + 7) && k % 8 == 0
      invariant op + k <= dst.Length && anchor + k <= |src|
      invariant dst[..op + k] == old(dst[..op]) + src[anchor..anchor + k]
      decreases len - k
    {
      k := CopyEight(src, dst, op, anchor, k);
    }
    assert dst[..op + len] == dst[..op + k][..op + len];
    assert src[anchor..anchor + len] == src[anchor..anchor + k][..len];
  }

  method CopyEight(src: Bytes, dst: array<Byte>, op: nat, anchor: nat, k: nat) returns (k': nat)
    requires anchor + k + 8 <= |src| && op + k + 8 <= dst.Length
    modifies dst
    ensures k' == k + 8
    ensures dst[..op + k'] == old(dst[..op + k]) + src[anchor + k..anchor + k']
  {
    forall i | 0 <= i < 8 {
      dst[op + k + i] := src[anchor + k + i];
    }
    k' := k + 8;
  }

  // ---------- one sequence ----------

  /** How much room the output needs: the bound, or what the caller allows. */
  ghost predicate RoomFor(n: nat, room: nat, limited: bool, olimit: int) {
    if limited then olimit <= room else n + n / 255 + 16 <= room
  }

  /** What has been written before the offset of the current sequence. */
  function Opening(l: Bytes): Bytes {
    [16 * Nibble(|l|)] + LengthTail(|l|) + l
  }

  lemma {:induction false} ExtensionSize(len: nat)
    ensures |Extension(len)| == len / 255 + 1
    decreases len
  {
    if len >= 255 { ExtensionSize(len - 255); }
  }

  lemma LengthTailSize(len: nat)
    ensures |LengthTail(len)| == (len + 240) / 255
  {
    if len >= 15 { ExtensionSize(len - 15); }
  }

  /** How long a sequence is written, and that it never outgrows the input it stands for. */
  lemma SequenceSize(l: Bytes, offset: nat, matchCode: nat)
    requires offset <= DISTANCE_MAX
    ensures |Opening(l)| == 1 + |l| + (|l| + 240) / 255
    ensures |SequenceBytes(l, offset, matchCode + MINMATCH)| == |Opening(l)| + 2 + (matchCode + 240) / 255
  {
    LengthTailSize(|l|);
    LengthTailSize(matchCode);
  }

  lemma SequenceShrinks(anchor: nat, litLen: nat, matchCode: nat)
    ensures anchor + anchor / 255 + 1 + litLen + (litLen + 240) / 255 + 2 + (matchCode + 240) / 255
      <= (anchor + litLen + matchCode + MINMATCH) + (anchor + litLen + matchCode + MINMATCH) / 255
  {
  }

  /** What the limit must leave after a token with so many literals. */
  function LiteralRoom(litLength: nat): nat {
    litLength + (2 + 1 + LASTLITERALS) + litLength / 255
  }

  /** Token and literals, unless the limit is too near. */
  method EncodeLiterals(src: Bytes, dst: array<Byte>, anchor: nat, ip: nat, token: nat, limited: bool, olimit: int)
    returns (ok: bool, op: nat)
    requires anchor <= ip && ip + MFLIMIT <= |src| && RoomFor(|src|, dst.Length, limited, olimit)
    requires if limited then token <= dst.Length else token <= anchor + anchor / 255
    modifies dst
    ensures !limited ==> ok
    ensures ok ==> token < op == token + |Opening(src[anchor..ip])| <= dst.Length
    ensures ok ==> dst[..token] == old(dst[..token]) && dst[token..op] == Opening(src[anchor..ip])
    ensures ok && limited ==> op + 5 <= olimit
    ensures ok <==> !limited || token + 1 + LiteralRoom(ip - anchor) <= olimit
  {
    var litLength := ip - anchor;
    op := token + 1;
    if limited && op + litLength + (2 + 1 + LASTLITERALS) + litLength / 255 > olimit { return false, op; }
    SequenceSize(src[anchor..ip], 0, 0);
    hide Opening, SequenceBytes;
    op := PutLiterals(src, dst, token, anchor, litLength);
    ok := true;
  }

  method PutLiterals(src: Bytes, dst: array<Byte>, token: nat, anchor: nat, litLength: nat) returns (op: nat)
    requires anchor + litLength + 8 <= |src|
    requires token + 1 + (litLength + 240) / 255 + (if litLength == 0 then 8 else litLength + 7) <= dst.Length
    modifies dst
    ensures op == token + 1 + (litLength + 240) / 255 + litLength
    ensures dst[..token] == old(dst[..token]) && dst[token..op] == Opening(src[anchor..anchor + litLength])
  {
    ghost var was := dst[..token];
    op := WriteTokenAndLength(dst, token, litLength);
    hide LengthTail, Opening, Nibble;
    CopyLiterals(src, dst, op, anchor, litLength);
    op := op + litLength;
    OpeningParts(dst[..op], was, src[anchor..anchor + litLength]);
    TakeParts(dst[..], token, op);
  }

  lemma TakeParts(s: Bytes, a: nat, b: nat)
    requires a <= b <= |s|
    ensures s[..b][..a] == s[..a] && s[..b][a..] == s[a..b]
  {
  }

  lemma OpeningParts(s: Bytes, was: Bytes, l: Bytes)
    requires s == was + ([16 * Nibble(|l|)] + LengthTail(|l|)) + l
    ensures s[..|was|] == was && s[|was|..] == Opening(l)
  {
  }

  method WriteTokenAndLength(dst: array<Byte>, token: nat, litLength: nat) returns (op: nat)
    requires token + 1 + (litLength + 240) / 255 <= dst.Length
    modifies dst
    ensures op == token + 1 + (litLength + 240) / 255
    ensures dst[..op] == old(dst[..token]) + ([16 * Nibble(litLength)] + LengthTail(litLength))
  {
    op := token + 1;
    ghost var was := dst[..token];
    if litLength >= 15 {
      dst[token] := 15 * 16;
      assert dst[..op] == was + [15 * 16];
      op := WriteExtension(dst, op, litLength - 15);
    } else {
      dst[token] := 16 * litLength;
      assert dst[..op] == was + [16 * litLength];
    }
  }

  method WriteOffset(dst: array<Byte>, token: nat, op: nat, offset: nat, ghost l: Bytes)
    requires offset <= DISTANCE_MAX && token < op && op + 2 <= dst.Length && dst[token..op] == Opening(l)
    modifies dst
    ensures dst[..token] == old(dst[..token]) && dst[token..op + 2] == Opening(l) + [offset % 256, offset / 256]
  {
    hide Opening;
    dst[op], dst[op + 1] := offset % 256, offset / 256;
    assert dst[token..op] == old(dst[token..op]);
  }

  method AddToToken(dst: array<Byte>, token: nat, op: nat, nibble: nat, ghost was: Bytes, ghost head: Bytes)
    requires token < op <= dst.Length && nibble <= 15 && dst[..token] == was && dst[token..op] == head && head[0] <= 240
    modifies dst
    ensures dst[..op] == was + ([head[0] + nibble] + head[1..])
  {
    assert dst[token] == head[0];
    dst[token] := dst[token] + nibble;
    assert dst[token + 1..op] == head[1..];
  }

  /** The bytes that continue the length of a match, and what the 4-byte writes of them may touch. */
  function TailSize(matchCode: nat): nat {
    (matchCode + 240) / 255
  }

  function TailRoom(matchCode: nat): nat {
    if matchCode >= 15 then TailSize(matchCode) + 3 else 0
  }

  method WriteTail(dst: array<Byte>, op0: nat, matchCode: nat) returns (op: nat)
    requires op0 + TailRoom(matchCode) <= dst.Length
    modifies dst
    ensures op == op0 + TailSize(matchCode) <= dst.Length
    ensures dst[..op] == old(dst[..op0]) + LengthTail(matchCode)
  {
    op := op0;
    if matchCode >= 15 { op := WriteMatchExtension(dst, op0, matchCode - 15); }
  }

  /** The low nibble of the token, and the continuation bytes. */
  method WriteMatchLength(dst: array<Byte>, token: nat, op0: nat, offset: nat, matchCode: nat, ghost l: Bytes)
    returns (op: nat)
    requires token < op0 && op0 + TailRoom(matchCode) <= dst.Length
    requires offset <= DISTANCE_MAX && dst[token..op0] == Opening(l) + [offset % 256, offset / 256]
    modifies dst
    ensures op == op0 + TailSize(matchCode) <= dst.Length
    ensures dst[..op] == old(dst[..token]) + SequenceBytes(l, offset, matchCode + MINMATCH)
  {
    OpeningToken(l);
    SequenceFromOpening(l, offset, matchCode);
    var nibble := if matchCode >= 15 then 15 else matchCode;
    assert nibble == Nibble(matchCode);
    hide Opening, LengthTail, SequenceBytes, Nibble, TailSize, TailRoom;
    ghost var was, head := dst[..token], Opening(l) + [offset % 256, offset / 256];
    AddToToken(dst, token, op0, nibble, was, head);
    op := WriteTail(dst, op0, matchCode);
    Regroup(was, [head[0] + nibble] + head[1..], LengthTail(matchCode));
  }

  lemma Regroup(a: Bytes, b: Bytes, c: Bytes)
    ensures a + b + c == a + (b + c)
  {
  }

  lemma OpeningToken(l: Bytes)
    ensures Opening(l) != [] && Opening(l)[0] == 16 * Nibble(|l|)
  {
  }

  lemma SequenceFromOpening(l: Bytes, offset: nat, matchCode: nat)
    requires offset <= DISTANCE_MAX
    ensures SequenceBytes(l, offset, matchCode + MINMATCH)
      == [16 * Nibble(|l|) + Nibble(matchCode)] + (Opening(l) + [offset % 256, offset / 256])[1..]
         + LengthTail(matchCode)
  {
  }

  /** How much longer than 4 the match is, without reaching into the last 5 bytes. */
  method MatchCode(src: Bytes, ip: nat, match_: nat) returns (matchCode: nat)
    requires match_ < ip && ip + MFLIMIT <= |src|
    ensures matchCode + MINMATCH == MatchLen(src, ip, match_) && ip + matchCode + MINMATCH + LASTLITERALS <= |src|
  {
    matchCode := Lz4Count.Lz4Count(src, ip + MINMATCH, match_ + MINMATCH, |src| - LASTLITERALS);
  }

  /** The offset and the match length, unless the limit is too near. */
  method EncodeMatch(src: Bytes, dst: array<Byte>, token: nat, op0: nat, ip0: nat, match_: nat,
                     ghost l: Bytes, limited: bool, olimit: int)
    returns (ok: bool, op: nat, matchLen: nat)
    requires match_ < ip0 <= match_ + DISTANCE_MAX && ip0 + MFLIMIT <= |src| <= MAX_INPUT_SIZE
    requires token < op0 <= dst.Length && dst[token..op0] == Opening(l)
    requires RoomFor(|src|, dst.Length, limited, olimit)
    requires if limited then op0 + 5 <= olimit else |l| <= ip0 && token <= (ip0 - |l|) + (ip0 - |l|) / 255
    modifies dst
    ensures matchLen == MatchLen(src, ip0, match_)
    ensures ok <==> !limited || token + |SequenceBytes(l, ip0 - match_, matchLen)| + 1 + LASTLITERALS <= olimit
    ensures ok ==> op == token + |SequenceBytes(l, ip0 - match_, matchLen)| <= dst.Length
    ensures ok ==> dst[..op] == old(dst[..token]) + SequenceBytes(l, ip0 - match_, matchLen)
    ensures ok && !limited ==> op <= (ip0 + matchLen) + (ip0 + matchLen) / 255
  {
    var offset := ip0 - match_;
    var matchCode := MatchCode(src, ip0, match_);
    matchLen := matchCode + MINMATCH;
    MatchFits(l, offset, matchCode, token, op0, ip0, |src|, dst.Length, limited, olimit);
    hide Opening, SequenceBytes, MatchLen, TailSize, TailRoom, RoomFor;
    WriteOffset(dst, token, op0, offset, l);
    op := op0 + 2;
    if limited && op + (1 + LASTLITERALS) + (matchCode + 240) / 255 > olimit { return false, op, matchLen; }
    op := WriteMatchLength(dst, token, op, offset, matchCode, l);
    ok := true;
  }

  /**
   The size of a sequence, and that there is room for its match: always without a limit, and within one if
   it fits.
   */
  lemma MatchFits(l: Bytes, offset: nat, matchCode: nat, token: nat, op: nat, ip: nat, n: nat, room: nat,
                  limited: bool, olimit: int)
    requires offset <= DISTANCE_MAX && op == token + |Opening(l)| && RoomFor(n, room, limited, olimit)
    requires |l| <= ip || limited
    requires !limited ==> token <= (ip - |l|) + (ip - |l|) / 255 && ip + matchCode + MINMATCH + LASTLITERALS <= n
    ensures TailSize(matchCode) == (matchCode + 240) / 255
    ensures token + |SequenceBytes(l, offset, matchCode + MINMATCH)| == op + 2 + TailSize(matchCode)
    ensures !limited || op + 2 + 1 + LASTLITERALS + TailSize(matchCode) <= olimit ==>
      op + 2 + TailRoom(matchCode) <= room
    ensures !limited ==>
      op + 2 + TailSize(matchCode) <= (ip + matchCode + MINMATCH) + (ip + matchCode + MINMATCH) / 255
    ensures limited && op + 5 <= olimit ==> op + 2 <= room
    ensures !limited ==> op + 2 <= room
  {
    SequenceSize(l, offset, matchCode);
    if !limited { MatchRoom(token, |l|, ip, matchCode, n, room); }
    hide Opening, SequenceBytes;
  }

  /** Without a limit there is always room for a match, and the output stays behind the input. */
  lemma MatchRoom(token: nat, litLen: nat, ip: nat, matchCode: nat, n: nat, room: nat)
    requires litLen <= ip && ip + matchCode + MINMATCH + LASTLITERALS <= n && n + n / 255 + 16 <= room
    requires token <= (ip - litLen) + (ip - litLen) / 255
    ensures var end := token + 1 + litLen + (litLen + 240) / 255 + 2 + (matchCode + 240) / 255;
      end <= (ip + matchCode + MINMATCH) + (ip + matchCode + MINMATCH) / 255 && end + 3 <= room
  {
    SequenceShrinks(ip - litLen, litLen, matchCode);
  }

  // ---------- the whole block ----------

  /** Where the output stands: at most what was read, or within the limit with 6 bytes to spare. */
  ghost predicate Spare(op: nat, anchor: nat, limited: bool, olimit: int) {
    if limited then op == 0 || op + 6 <= olimit else op <= anchor + anchor / 255
  }

  /** The match that ends a sequence, and how far that takes the compressor. */
  method EncodeSequence(src: Bytes, dst: array<Byte>, anchor: nat, token: nat, op0: nat, ip0: nat, match_: nat,
                        ghost known: nat, limited: bool, olimit: int, ghost qs0: seq<Seqn>)
    returns (ok: bool, ip: nat, op: nat, ghost qs: seq<Seqn>)
    requires |src| <= MAX_INPUT_SIZE && RoomFor(|src|, dst.Length, limited, olimit)
    requires Progress(src, qs0, anchor) && AllOk(qs0) && Matching(src, anchor, ip0, match_, known)
    requires token < op0 <= dst.Length && dst[..token] == Written(qs0) && dst[token..op0] == Opening(src[anchor..ip0])
    requires if limited then op0 + 5 <= olimit else token <= anchor + anchor / 255
    modifies dst
    ensures qs == qs0 + [Seqn(src[anchor..ip0], ip0 - match_, MatchLen(src, ip0, match_))]
    ensures ip == ip0 + MatchLen(src, ip0, match_) && known < ip && ip + LASTLITERALS <= |src|
    ensures Progress(src, qs, ip) && AllOk(qs)
    ensures ok <==> !limited || |Written(qs)| + 1 + LASTLITERALS <= olimit
    ensures ok ==> op <= dst.Length && dst[..op] == Written(qs) && Spare(op, ip, limited, olimit)
  {
    hide Progress, Opening, Written, SequenceBytes, MatchLen, Lz4Copy.Periodic;
    ReachesKnown(src, ip0, match_, known);
    MatchPeriodic(src, ip0, match_, known);
    var matchLen;
    ok, op, matchLen := EncodeMatch(src, dst, token, op0, ip0, match_, src[anchor..ip0], limited, olimit);
    ProgressStep(src, qs0, anchor, ip0, match_, matchLen);
    qs := qs0 + [Seqn(src[anchor..ip0], ip0 - match_, matchLen)];
    ip := ip0 + matchLen;
    ProgressOk(src, qs, ip);
    assert token == |Written(qs0)|;
  }

  /**
   A match, and every match that follows with no literal between: what is written is what `Matches` says, and
   it is given up only when the output would not fit.
   */
  method EncodeMatches(src: Bytes, dst: array<Byte>, table: array<nat>, tt: TableType, hash: Bytes -> nat,
                       anchor0: nat, token0: nat, op0: nat, ip0: nat, match0: nat, ghost filled: nat,
                       limited: bool, olimit: int, ghost acc: nat, ghost qs0: seq<Seqn>)
    returns (ok: bool, more: bool, ip: nat, op: nat, ghost qs: seq<Seqn>)
    requires Ready(src, table[..], tt, hash, acc, filled + 1) && Addressable(tt, |src|)
    requires RoomFor(|src|, dst.Length, limited, olimit) && Progress(src, qs0, anchor0)
    requires Matching(src, anchor0, ip0, match0, filled)
    requires AllOk(qs0) && token0 < op0 <= dst.Length && dst[..token0] == Written(qs0)
    requires dst[token0..op0] == Opening(src[anchor0..ip0])
    requires if limited then op0 + 5 <= olimit else token0 <= anchor0 + anchor0 / 255
    modifies dst, table
    ensures var f := Matches(src, old(table[..]), tt, hash, acc, anchor0, ip0, match0, filled, qs0);
      if !ok then limited && AllOk(f.qs) && f.anchor <= |src| && SizeOf(src, f) > olimit
      else if more then
        && Ready(src, table[..], tt, hash, acc, ip + 1) && ip + MFLIMIT <= |src|
        && f == Search(src, table[..], tt, hash, acc, ip + 1, ip, qs)
      else f == Found(qs, ip)
    ensures ok ==> op <= dst.Length && Progress(src, qs, ip) && AllOk(qs) && dst[..op] == Written(qs)
    ensures ok ==> Spare(op, ip, limited, olimit) && filled < ip
  {
    hide Progress, Opening, Written, SequenceBytes, HashFits, Matches, Search, MatchLen, Hit, Remember, Candidate;
    hide SizeOf;
    var anchor: nat, token: nat, match_: nat := anchor0, token0, match0;
    op, ip, qs := op0, ip0, qs0;
    ghost var known: nat := filled;
    ghost var f := Matches(src, table[..], tt, hash, acc, anchor, ip, match_, known, qs);
    while true
      invariant Ready(src, table[..], tt, hash, acc, known + 1) && Progress(src, qs, anchor)
      invariant filled <= known && Matching(src, anchor, ip, match_, known)
      invariant f == Matches(src, table[..], tt, hash, acc, anchor, ip, match_, known, qs)
      invariant token < op <= dst.Length && AllOk(qs) && dst[..token] == Written(qs)
      invariant dst[token..op] == Opening(src[anchor..ip])
      invariant if limited then op + 5 <= olimit else token <= anchor + anchor / 255
      decreases |src| - ip
    {
      MatchTurn(src, table[..], tt, hash, acc, anchor, ip, match_, known, qs);
      ok, ip, op, qs := EncodeSequence(src, dst, anchor, token, op, ip, match_, known, limited, olimit, qs);
      if !ok {
        SizeAtLeast(src, f, qs);
        return ok, false, ip, op, qs;
      }
      anchor := ip;
      AfterTurn(src, table[..], tt, hash, acc, ip, qs);
      if ip >= |src| - (MFLIMIT - 1) { return ok, false, ip, op, qs; }
      var found;
      found, match_ := TestNext(src, table, tt, hash, ip);
      if !found { return ok, true, ip, op, qs; }
      ghost var was := dst[..op];
      token := op;
      op := op + 1;
      dst[token] := 0;
      known := ip;
      NoLiterals(src, anchor);
      assert dst[..token] == was && dst[token..op] == [0];
    }
  }

  /** One match, as `Matches` has it, and that its sequence is part of the whole. */
  lemma MatchTurn(src: Bytes, table: seq<nat>, tt: TableType, hash: Bytes -> nat, acc: nat, anchor: nat, ip: nat,
                  m: nat, known: nat, qs: seq<Seqn>)
    requires Ready(src, table, tt, hash, acc, known + 1)
    requires Matching(src, anchor, ip, m, known) && Progress(src, qs, anchor)
    ensures var f := Matches(src, table, tt, hash, acc, anchor, ip, m, known, qs);
      var end, qs' := ip + MatchLen(src, ip, m), qs + [Seqn(src[anchor..ip], ip - m, MatchLen(src, ip, m))];
      && known + MINMATCH <= end && end + LASTLITERALS <= |src| && Ready(src, table, tt, hash, acc, end)
      && f == AfterMatch(src, table, tt, hash, acc, end, qs')
      && AllOk(f.qs) && f.anchor + LASTLITERALS <= |src| && qs' <= f.qs
  {
    MatchesTurn(src, table, tt, hash, acc, anchor, ip, m, known, qs);
    MatchesOk(src, table, tt, hash, acc, anchor, ip, m, known, qs);
    var f := Matches(src, table, tt, hash, acc, anchor, ip, m, known, qs);
    ProgressOk(src, f.qs, f.anchor);
    hide Matches, AfterMatch, MatchLen, Progress, Matching, HashFits, Below;
  }

  lemma NoLiterals(src: Bytes, anchor: nat)
    requires anchor <= |src|
    ensures Opening(src[anchor..anchor]) == [0]
  {
  }

  /** The final run of literals, unless it does not fit the limit. */
  method EncodeLastLiterals(src: Bytes, dst: array<Byte>, anchor: nat, op0: nat, limited: bool, olimit: int)
    returns (ok: bool, op: nat)
    requires anchor <= |src| && RoomFor(|src|, dst.Length, limited, olimit)
    requires op0 <= dst.Length && (!limited ==> op0 <= anchor + anchor / 255)
    modifies dst
    ensures !limited ==> ok
    ensures ok <==> !limited || op0 + |LastBytes(src[anchor..])| <= olimit
    ensures ok ==> op <= dst.Length && dst[..op] == old(dst[..op0]) + LastBytes(src[anchor..]) && op > 0
    ensures ok ==> if limited then op <= olimit else op <= |src| + |src| / 255 + 2
  {
    var lastRun := |src| - anchor;
    op := op0;
    LengthTailSize(lastRun);
    if limited && op + lastRun + 1 + (lastRun + 240) / 255 > olimit { return false, op; }
    LastFits(anchor, lastRun);
    op := WriteTokenAndLength(dst, op, lastRun);
    hide LengthTail;
    CopyRun(src, dst, op, anchor);
    op := op + lastRun;
    ok := true;
    ghost var head := [16 * Nibble(lastRun)] + LengthTail(lastRun);
    assert Token(lastRun, 0) == 16 * Nibble(lastRun);
    assert LastBytes(src[anchor..]) == head + src[anchor..];
    assert dst[..op] == old(dst[..op0]) + head + src[anchor..] == old(dst[..op0]) + (head + src[anchor..]);
  }

  lemma LastFits(anchor: nat, lastRun: nat)
    ensures anchor + anchor / 255 + 1 + (lastRun + 240) / 255 + lastRun
      <= (anchor + lastRun) + (anchor + lastRun) / 255 + 2
  {
  }

  method CopyRun(src: Bytes, dst: array<Byte>, op: nat, anchor: nat)
    requires anchor <= |src| && op + (|src| - anchor) <= dst.Length
    modifies dst
    ensures dst[..op + (|src| - anchor)] == old(dst[..op]) + src[anchor..]
  {
    forall i | 0 <= i < |src| - anchor {
      dst[op + i] := src[anchor + i];
    }
  }

  /**
   LZ4_compress_generic_validated for a single block without history: it writes what `FoundIn` finds, and gives
   up exactly when that does not fit the limit.
   */
  method CompressValidated(src: Bytes, dst: array<Byte>, table: array<nat>, tt: TableType, hash: Bytes -> nat,
                           limited: bool, olimit: int, acceleration: nat)
    returns (r: nat)
    requires 0 < |src| <= MAX_INPUT_SIZE && tt == TableFor(|src|) && HashFits(hash, TableSize(tt)) && 1 <= acceleration
    requires RoomFor(|src|, dst.Length, limited, olimit) && table[..] == seq(TableSize(tt), _ => 0)
    modifies dst, table
    ensures var out := BlockBytes(src, hash, acceleration);
      if limited && |out| > olimit then r == 0 else r == |out| && 0 < r <= dst.Length && dst[..r] == out
    ensures r > 0 ==> if limited then r <= olimit else r <= |src| + |src| / 255 + 2
  {
    ghost var f := FoundIn(src, hash, acceleration);
    BytesOf(src, hash, acceleration);
    Start(src);
    hide Progress, HashFits, Written, Search, LastBytes, FoundIn, BlockBytes, SizeOf;
    var op: nat, anchor: nat, ok := 0, 0, true;
    ghost var qs := [];
    if |src| >= MIN_LENGTH {
      TableBegins(src, hash, acceleration);
      PutIndex(src, table, tt, hash, hash(Window(src, 0, tt)), 0);
      ok, op, anchor, qs := EncodeFound(src, dst, table, tt, hash, limited, olimit, acceleration, f);
      if !ok { return 0; }
    }
    ok, op := EncodeLastLiterals(src, dst, anchor, op, limited, olimit);
    if !ok { return 0; }
    r := op;
  }

  /** Its loop: a search, the match with those that follow it without literals, and again. */
  method EncodeFound(src: Bytes, dst: array<Byte>, table: array<nat>, tt: TableType, hash: Bytes -> nat,
                     limited: bool, olimit: int, acceleration: nat, ghost f: Found)
    returns (ok: bool, op: nat, anchor: nat, ghost qs: seq<Seqn>)
    requires Addressable(tt, |src|) && RoomFor(|src|, dst.Length, limited, olimit)
    requires Ready(src, table[..], tt, hash, acceleration, 1)
    requires AllOk(f.qs) && f.anchor <= |src| && f == Search(src, table[..], tt, hash, acceleration, 1, 0, [])
    modifies dst, table
    ensures !ok ==> limited && SizeOf(src, f) > olimit
    ensures ok ==> f == Found(qs, anchor) && op <= dst.Length && dst[..op] == Written(qs)
    ensures ok ==> Spare(op, anchor, limited, olimit)
  {
    Start(src);
    hide Progress, Opening, HashFits, Written, Search, Matches, Searched, Backed, LastBytes, Hit, SizeOf,
      Matching, Window;
    ok, op, anchor, qs := true, 0, 0, [];
    var ip: nat := 1;
    var more := true;
    while more
      invariant op <= dst.Length && Progress(src, qs, anchor) && AllOk(qs) && dst[..op] == Written(qs)
      invariant anchor <= |src| && Spare(op, anchor, limited, olimit)
      invariant more ==> anchor <= ip && ip + (MFLIMIT - 1) <= |src|
      invariant more ==> Ready(src, table[..], tt, hash, acceleration, ip)
      invariant f == if more then Search(src, table[..], tt, hash, acceleration, ip, anchor, qs) else Found(qs, anchor)
      decreases more, |src| - ip
    {
      var found, match_;
      SearchFacts(src, table[..], tt, hash, acceleration, ip, anchor, qs);
      found, ip, match_ := FindMatch(src, table, tt, hash, ip, acceleration);
      if !found {
        more := false;
        break;
      }
      ghost var filled: nat := ip;
      ip, match_ := CatchUp(src, anchor, ip, match_);
      var token := op;
      ok, op := EncodeLiterals(src, dst, anchor, ip, token, limited, olimit);
      if !ok {
        LiteralsTooBig(src, f, qs, Seqn(src[anchor..ip], ip - match_, MatchLen(src, ip, match_)), olimit);
        return;
      }
      ok, more, ip, op, qs := EncodeMatches(src, dst, table, tt, hash, anchor, token, op, ip, match_, filled,
                                            limited, olimit, acceleration, qs);
      if !ok { return; }
      ProgressOk(src, qs, ip);
      anchor := ip;
      ip := ip + 1;
    }
  }

  lemma BytesOf(src: Bytes, hash: Bytes -> nat, acc: nat)
    requires |src| <= MAX_INPUT_SIZE && HashFits(hash, TableSize(TableFor(|src|))) && acc >= 1
    ensures var f, out := FoundIn(src, hash, acc), BlockBytes(src, hash, acc);
      && AllOk(f.qs) && f.anchor <= |src| && (|src| < MIN_LENGTH ==> f == Found([], 0))
      && out == Written(f.qs) + LastBytes(src[f.anchor..]) && |out| == SizeOf(src, f)
  {
    hide Search, LastBytes, Written;
    FoundInOk(src, hash, acc);
  }

  lemma TableBegins(src: Bytes, hash: Bytes -> nat, acc: nat)
    requires MIN_LENGTH <= |src| <= MAX_INPUT_SIZE && HashFits(hash, TableSize(TableFor(|src|))) && acc >= 1
    ensures Ready(src, FirstTable(src, hash), TableFor(|src|), hash, acc, 1)
    ensures FoundIn(src, hash, acc) == Search(src, FirstTable(src, hash), TableFor(|src|), hash, acc, 1, 0, [])
    ensures hash(Window(src, 0, TableFor(|src|))) < TableSize(TableFor(|src|))
  {
    hide Search;
  }

  /** What a search that ends at `s` hands to the match, and that its sequence is part of the whole. */
  ghost predicate GoesOn(src: Bytes, tt: TableType, hash: Bytes -> nat, acc: nat, ip: nat, anchor: nat, qs: seq<Seqn>,
                         s: Stop, f: Found) {
    && HandsOn(src, tt, hash, acc, ip, anchor, s)
    && var k := Backed(src, anchor, s.p, s.m);
    && f == Matches(src, s.table, tt, hash, acc, anchor, s.p - k, s.m - k, s.p, qs)
    && AllOk(f.qs) && f.anchor + LASTLITERALS <= |src|
    && qs + [Seqn(src[anchor..s.p - k], s.p - s.m, MatchLen(src, s.p - k, s.m - k))] <= f.qs
  }

  lemma SearchFacts(src: Bytes, table: seq<nat>, tt: TableType, hash: Bytes -> nat, acc: nat, ip: nat, anchor: nat,
                    qs: seq<Seqn>)
    requires Ready(src, table, tt, hash, acc, ip) && ip + (MFLIMIT - 1) <= |src| && anchor <= ip
    requires Progress(src, qs, anchor)
    ensures var f, r := Search(src, table, tt, hash, acc, ip, anchor, qs), Searched(src, table, tt, hash, ip, acc);
      match r
      case None => f == Found(qs, anchor)
      case Some(s) => GoesOn(src, tt, hash, acc, ip, anchor, qs, s, f)
  {
    hide Searched, Progress, Search, FromStop, HandsOn, HashFits, Below, MatchLen, Backed, Matches, GoesOn;
    var r := Searched(src, table, tt, hash, ip, acc);
    if r.Some? {
      SearchTurns(src, table, tt, hash, acc, ip, anchor, qs, r.value);
      StopFound(src, tt, hash, acc, ip, anchor, r.value, qs);
    } else {
      NothingMore(src, table, tt, hash, acc, ip, anchor, qs);
    }
  }

  lemma StopFound(src: Bytes, tt: TableType, hash: Bytes -> nat, acc: nat, ip: nat, anchor: nat, s: Stop, qs: seq<Seqn>)
    requires HandsOn(src, tt, hash, acc, ip, anchor, s) && Progress(src, qs, anchor)
    ensures GoesOn(src, tt, hash, acc, ip, anchor, qs, s, FromStop(src, tt, hash, acc, ip, anchor, s, qs))
  {
    FromStopOk(src, tt, hash, acc, ip, anchor, s, qs);
    var f := FromStop(src, tt, hash, acc, ip, anchor, s, qs);
    ProgressOk(src, f.qs, f.anchor);
    hide Backed, Progress, Matches, MatchLen, HashFits, Below;
  }

  lemma NothingMore(src: Bytes, table: seq<nat>, tt: TableType, hash: Bytes -> nat, acc: nat, ip: nat, anchor: nat,
                    qs: seq<Seqn>)
    requires Ready(src, table, tt, hash, acc, ip) && ip + (MFLIMIT - 1) <= |src| && anchor <= ip
    requires Searched(src, table, tt, hash, ip, acc).None?
    ensures Search(src, table, tt, hash, acc, ip, anchor, qs) == Found(qs, anchor)
  {
    hide Searched, FromStop, HandsOn;
  }

  /** Literals that do not fit the limit make the whole too big for it. */
  lemma LiteralsTooBig(src: Bytes, f: Found, qs: seq<Seqn>, q: Seqn, olimit: int)
    requires AllOk(f.qs) && f.anchor + LASTLITERALS <= |src| && qs + [q] <= f.qs && AllOk(qs)
    requires |Written(qs)| + 1 + LiteralRoom(|q.literals|) > olimit
    ensures SizeOf(src, f) > olimit
  {
    SizeAtLeast(src, f, qs + [q]);
    assert SeqnOk((qs + [q])[|qs|]);
    assert (qs + [q])[..|qs + [q]| - 1] == qs;
    SequenceSize(q.literals, q.offset, q.matchLen - MINMATCH);
    hide SequenceBytes;
  }

  lemma HashInRange(hash: Bytes -> nat, size: nat, w: Bytes)
    requires HashFits(hash, size)
    ensures hash(w) < size
  {
  }

  // ---------- the callers ----------

  /** The output is `out` if it fits the limit, and nothing otherwise. */
  ghost predicate Wrote(out: Bytes, limited: bool, olimit: int, r: nat, buf: Bytes) {
    if limited && |out| > olimit then r == 0 else r == |out| && 0 < r <= |buf| && buf[..r] == out
  }

  /** LZ4_compress_generic: sizes first, then the block. */
  method CompressGeneric(src: Bytes, dst: array<Byte>, hash: Bytes -> nat, dstCapacity: int, limited: bool,
                         acceleration: nat)
    returns (r: nat)
    requires HashFits(hash, TableSize(TableFor(|src|))) && 1 <= acceleration
    requires if limited then dstCapacity <= dst.Length else CompressBound(|src|) <= dst.Length
    modifies dst
    ensures |src| > MAX_INPUT_SIZE ==> r == 0
    ensures |src| <= MAX_INPUT_SIZE ==> Wrote(BlockBytes(src, hash, acceleration), limited, dstCapacity, r, dst[..])
    ensures r > 0 && !limited ==> r <= |src| + |src| / 255 + 2
  {
    hide HashFits, BlockBytes;
    if |src| > MAX_INPUT_SIZE { return 0; }
    if |src| == 0 {
      EmptyBlock(src, hash, acceleration);
      if limited && dstCapacity <= 0 { return 0; }
      dst[0] := 0;
      assert dst[..][..1] == [0];
      return 1;
    }
    var tt := TableFor(|src|);
    var table := new nat[TableSize(tt)](_ => 0);
    assert table[..] == seq(TableSize(tt), _ => 0);
    r := CompressValidated(src, dst, table, tt, hash, limited, dstCapacity, acceleration);
    assert r <= dst.Length ==> dst[..][..r] == dst[..r];
  }

  lemma EmptyBlock(src: Bytes, hash: Bytes -> nat, acc: nat)
    requires |src| == 0 && HashFits(hash, TableSize(TableFor(0))) && acc >= 1
    ensures BlockBytes(src, hash, acc) == [0]
  {
    BytesOf(src, hash, acc);
    EmptyLast(src);
    Start(src);
    assert |src| < MIN_LENGTH;
    hide *;
    assert src[0..] == src;
  }

  /** The acceleration that is used for the one asked for. */
  function Rounds(acceleration: int): (rounds: nat)
    ensures 1 <= rounds <= ACCELERATION_MAX && (1 <= acceleration <= ACCELERATION_MAX ==> rounds == acceleration)
  {
    if acceleration < 1 then ACCELERATION_DEFAULT
    else if acceleration > ACCELERATION_MAX then ACCELERATION_MAX else acceleration
  }

  /**
   LZ4_compress_fast: without checks when the output can hold the worst case, with them otherwise. For a
   supported input the result is the size of the block and the output holds it exactly if it fits, and 0
   otherwise; with an output of the bound's size it always fits.
   */
  method CompressFast(src: Bytes, dst: array<Byte>, hash: Bytes -> nat, maxOutputSize: int, acceleration: int)
    returns (r: nat)
    requires HashFits(hash, TableSize(TableFor(|src|))) && maxOutputSize <= dst.Length
    modifies dst
    ensures |src| > MAX_INPUT_SIZE ==> r == 0
    ensures |src| <= MAX_INPUT_SIZE ==>
      Wrote(BlockBytes(src, hash, Rounds(acceleration)), true, maxOutputSize, r, dst[..])
    ensures |src| <= MAX_INPUT_SIZE && maxOutputSize >= CompressBound(|src|) ==> 0 < r <= |src| + |src| / 255 + 2
    ensures r > 0 ==> r <= maxOutputSize && IsBlockOf(dst[..r], src)
  {
    hide BlockBytes, IsBlockOf, HashFits;
    if |src| <= MAX_INPUT_SIZE { BytesAreBlock(src, hash, Rounds(acceleration)); }
    if maxOutputSize >= CompressBound(|src|) {
      r := CompressGeneric(src, dst, hash, 0, false, Rounds(acceleration));
    } else {
      r := CompressGeneric(src, dst, hash, maxOutputSize, true, Rounds(acceleration));
    }
    assert r <= dst.Length ==> dst[..][..r] == dst[..r];
  }

  /** LZ4_compress_default: acceleration 1. */
  method CompressDefault(src: Bytes, dst: array<Byte>, hash: Bytes -> nat, maxOutputSize: int) returns (r: nat)
    requires HashFits(hash, TableSize(TableFor(|src|))) && maxOutputSize <= dst.Length
    modifies dst
    ensures |src| > MAX_INPUT_SIZE ==> r == 0
    ensures |src| <= MAX_INPUT_SIZE ==> Wrote(BlockBytes(src, hash, 1), true, maxOutputSize, r, dst[..])
    ensures |src| <= MAX_INPUT_SIZE && maxOutputSize >= CompressBound(|src|) ==> 0 < r <= |src| + |src| / 255 + 2
    ensures r > 0 ==> r <= maxOutputSize && IsBlockOf(dst[..r], src)
  {
    r := CompressFast(src, dst, hash, maxOutputSize, 1);
  }
}
