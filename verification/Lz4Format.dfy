/**
 The LZ4 block format, byte by byte: what a block means, how one is written, and how one is read.
 This is the specification the compressor and the decompressor are proved against.
 */
module Lz4Format {
  import opened Values
  import opened Wrappers

  const MINMATCH: nat := 4
  const LASTLITERALS: nat := 5
  const MFLIMIT: nat := 12
  const DISTANCE_MAX: nat := 65535
  const U32_RANGE: nat := 0x1_0000_0000

  /** Literals and a back-reference, again and again, and a final run of literals. */
  datatype Block =
    | Last(literals: Bytes)
    | Sequence(literals: Bytes, offset: nat, matchLen: nat, rest: Block)

  /** Append `len` bytes, each equal to the one `offset` before it. */
  function CopyMatch(out: Bytes, offset: nat, len: nat): (r: Bytes)
    requires 1 <= offset <= |out|
    ensures |r| == |out| + len
    decreases len
  {
    if len == 0 then out else CopyMatch(out + [out[|out| - offset]], offset, len - 1)
  }

  function Zeros(len: nat): (z: Bytes)
    ensures |z| == len && forall i :: 0 <= i < len ==> z[i] == 0
  {
    seq(len, _ => 0)
  }

  /** A match as it is decoded: an offset of zero, which the format forbids, gives bytes of zero. */
  function Copied(out: Bytes, offset: nat, len: nat): (r: Bytes)
    requires offset <= |out|
    ensures |r| == |out| + len
  {
    if offset == 0 then out + Zeros(len) else CopyMatch(out, offset, len)
  }

  /** What a block decodes to after `out`; no value when an offset reaches before the start. */
  function Expand(b: Block, out: Bytes): Option<Bytes> {
    match b
    case Last(l) => Some(out + l)
    case Sequence(l, offset, matchLen, rest) =>
      if offset > |out| + |l| then None
      else Expand(rest, Copied(out + l, offset, matchLen))
  }

  /** Every offset is one that the format allows. */
  predicate OffsetsPositive(b: Block) {
    b.Sequence? ==> b.offset >= 1 && OffsetsPositive(b.rest)
  }

  /** The bytes that a block adds to the output. */
  function Size(b: Block): nat {
    match b
    case Last(l) => |l|
    case Sequence(l, _, matchLen, rest) => |l| + matchLen + Size(rest)
  }

  lemma {:induction false} ExpandSize(b: Block, out: Bytes)
    ensures Expand(b, out).Some? ==> |Expand(b, out).value| == |out| + Size(b)
  {
    if b.Sequence? && b.offset <= |out| + |b.literals| {
      ExpandSize(b.rest, Copied(out + b.literals, b.offset, b.matchLen));
    }
  }

  /**
   The end-of-block conditions: the last sequence is literals only, a block with a match ends in at
   least 5 literals, and the last match starts at least 12 bytes before the end.
   */
  predicate Conformant(b: Block) {
    match b
    case Last(_) => true
    case Sequence(_, _, matchLen, rest) =>
      && Conformant(rest)
      && (rest.Last? ==> |rest.literals| >= LASTLITERALS && matchLen + |rest.literals| >= MFLIMIT)
  }

  /** Offsets and lengths that the format can express and a 32-bit length can hold. */
  predicate Encodable(b: Block) {
    match b
    case Last(l) => |l| < U32_RANGE
    case Sequence(l, offset, matchLen, rest) =>
      && |l| < U32_RANGE && 1 <= offset <= DISTANCE_MAX && MINMATCH <= matchLen < U32_RANGE && Encodable(rest)
  }

  // ---------- writing ----------

  /** The bytes that continue a length whose nibble is full. */
  function Extension(len: nat): Bytes {
    if len >= 255 then [255] + Extension(len - 255) else [len]
  }

  function Nibble(len: nat): (n: nat)
    ensures n <= 15
  {
    if len >= 15 then 15 else len
  }

  function LengthTail(len: nat): Bytes {
    if len >= 15 then Extension(len - 15) else []
  }

  function Token(litLen: nat, matchCode: nat): Byte {
    16 * Nibble(litLen) + Nibble(matchCode)
  }

  /** One sequence: token, literal length, literals, offset (little endian), match length. */
  function SequenceBytes(l: Bytes, offset: nat, matchLen: nat): Bytes
    requires offset <= DISTANCE_MAX && matchLen >= MINMATCH
  {
    [Token(|l|, matchLen - MINMATCH)] + LengthTail(|l|) + l + [offset % 256, offset / 256]
    + LengthTail(matchLen - MINMATCH)
  }

  function LastBytes(l: Bytes): Bytes {
    [Token(|l|, 0)] + LengthTail(|l|) + l
  }

  function Serialize(b: Block): Bytes
    requires Encodable(b)
  {
    match b
    case Last(l) => LastBytes(l)
    case Sequence(l, offset, matchLen, rest) => SequenceBytes(l, offset, matchLen) + Serialize(rest)
  }

  // ---------- reading ----------

  /** Sum the continuation bytes at `ip`; no value when the input ends first. */
  function ReadExtension(src: Bytes, ip: nat): (r: Option<(nat, nat)>)
    ensures r.Some? ==> ip < r.value.1 <= |src|
    decreases |src| - ip
  {
    if ip >= |src| then None
    else if src[ip] < 255 then Some((src[ip], ip + 1))
    else
      match ReadExtension(src, ip + 1)
      case None => None
      case Some(r) => Some((255 + r.0, r.1))
  }

  /** How a continuation is summed up: in 32 bits, as the C code does, or without bound, as the format means it. */
  datatype Width = Word32 | Unbounded

  function Sum(total: nat, w: Width): nat {
    if w.Word32? then total % U32_RANGE else total
  }

  /** A length whose nibble is given and whose continuation, if any, is at `ip`. */
  function ReadLength(src: Bytes, ip: nat, nibble: nat, w: Width := Word32): (r: Option<(nat, nat)>)
    ensures r.Some? ==> ip <= r.value.1 && (ip <= |src| ==> r.value.1 <= |src|)
  {
    if nibble != 15 then Some((nibble, ip))
    else
      match ReadExtension(src, ip)
      case None => None
      case Some(r) => Some((15 + Sum(r.0, w), r.1))
  }

  /** Literal length and where the literals start, for the sequence at `ip`. */
  function LiteralField(src: Bytes, ip: nat, w: Width := Word32): (r: Option<(nat, nat)>)
    requires ip < |src|
    ensures r.Some? ==> ip < r.value.1 <= |src|
  {
    ReadLength(src, ip + 1, src[ip] / 16, w)
  }

  /** Match length and where the next sequence starts, for a token and the position after the offset. */
  function MatchField(src: Bytes, token: Byte, ip: nat, w: Width := Word32): (r: Option<(nat, nat)>)
    ensures r.Some? ==> ip <= r.value.1 && (ip <= |src| ==> r.value.1 <= |src|)
  {
    match ReadLength(src, ip, token % 16, w)
    case None => None
    case Some(r) => Some((r.0 + MINMATCH, r.1))
  }

  function OffsetAt(src: Bytes, at: nat): nat
    requires at + 2 <= |src|
  {
    var low: int, high: int := src[at], src[at + 1];
    low + 256 * high
  }

  /** One sequence as it stands at `ip`. */
  datatype Head =
    | HLast(literals: Bytes)
    | HSequence(literals: Bytes, litEnd: nat, offset: nat, matchLen: nat, next: nat)
    | HMalformed

  function ParseHead(src: Bytes, ip: nat, w: Width := Word32): (h: Head)
    ensures h.HSequence? ==> ip < h.next <= |src|
  {
    if ip >= |src| then HMalformed
    else
      match LiteralField(src, ip, w)
      case None => HMalformed
      case Some(lit) =>
        if lit.1 + lit.0 > |src| then HMalformed
        else if lit.1 + lit.0 == |src| then HLast(src[lit.1..])
        else AfterLiterals(src, src[ip], src[lit.1..lit.1 + lit.0], lit.1 + lit.0, w)
  }

  function AfterLiterals(src: Bytes, token: Byte, literals: Bytes, at: nat, w: Width := Word32): (h: Head)
    requires at < |src|
    ensures h.HSequence? ==> at < h.next <= |src|
  {
    if at + 2 > |src| then HMalformed
    else
      match MatchField(src, token, at + 2, w)
      case None => HMalformed
      case Some(m) => HSequence(literals, at, OffsetAt(src, at), m.0, m.1)
  }

  datatype ParseResult = Parsed(block: Block) | Malformed

  function Parse(src: Bytes, ip: nat, w: Width := Word32): ParseResult
    decreases |src| - ip
  {
    match ParseHead(src, ip, w)
    case HLast(l) => Parsed(Last(l))
    case HMalformed => Malformed
    case HSequence(l, _, offset, matchLen, next) =>
      match Parse(src, next, w)
      case Parsed(rest) => Parsed(Sequence(l, offset, matchLen, rest))
      case Malformed => Malformed
  }

  /** What the format gives a block as its meaning. */
  function Meaning(src: Bytes): Option<Bytes> {
    match Parse(src, 0, Unbounded)
    case Parsed(b) => if OffsetsPositive(b) then Expand(b, []) else None
    case Malformed => None
  }

  const EXAMPLE: Bytes := [0x21, 97, 98, 2, 0, 0x50, 1, 2, 3, 4, 5]

  /**
   A block of two sequences by the LZ4 block format: literal length in the high nibble of the token, offset
   low byte first, match length less 4 in the low nibble.
   */
  lemma ExampleBlock()
    ensures OffsetAt([0x01, 0x02], 0) == 0x201
    ensures var b := Sequence([97, 98], 2, 5, Last([1, 2, 3, 4, 5]));
      Parse(EXAMPLE, 0) == Parsed(b) && Expand(b, []) == Some([97, 98, 97, 98, 97, 98, 97, 1, 2, 3, 4, 5])
  {
    ExampleHeads();
    ExampleCopy();
    hide ParseHead, CopyMatch;
    assert Parse(EXAMPLE, 5) == Parsed(Last([1, 2, 3, 4, 5]));
    var l: Bytes := [97, 98];
    assert [] + l == l;
    assert [97, 98, 97, 98, 97, 98, 97] + [1, 2, 3, 4, 5] == [97, 98, 97, 98, 97, 98, 97, 1, 2, 3, 4, 5];
    assert Expand(Last([1, 2, 3, 4, 5]), CopyMatch(l, 2, 5)) == Some([97, 98, 97, 98, 97, 98, 97] + [1, 2, 3, 4, 5]);
  }

  lemma ExampleHeads()
    ensures ParseHead(EXAMPLE, 0) == HSequence([97, 98], 3, 2, 5, 5)
    ensures ParseHead(EXAMPLE, 5) == HLast([1, 2, 3, 4, 5])
  {
    assert EXAMPLE[1..3] == [97, 98] && EXAMPLE[6..] == [1, 2, 3, 4, 5];
    assert LiteralField(EXAMPLE, 0) == Some((2, 1)) && LiteralField(EXAMPLE, 5) == Some((5, 6));
    assert OffsetAt(EXAMPLE, 3) == 2 && MatchField(EXAMPLE, 0x21, 5) == Some((5, 5));
    hide LiteralField, MatchField, OffsetAt;
  }

  lemma ExampleCopy()
    ensures CopyMatch([97, 98], 2, 5) == [97, 98, 97, 98, 97, 98, 97]
  {
    assert CopyMatch([97, 98, 97, 98, 97, 98], 2, 1) == CopyMatch([97, 98, 97, 98, 97, 98] + [97], 2, 0);
    assert CopyMatch([97, 98, 97, 98, 97], 2, 2) == CopyMatch([97, 98, 97, 98, 97] + [98], 2, 1);
    assert CopyMatch([97, 98, 97, 98], 2, 3) == CopyMatch([97, 98, 97, 98] + [97], 2, 2);
    assert CopyMatch([97, 98, 97], 2, 4) == CopyMatch([97, 98, 97] + [98], 2, 3);
    assert CopyMatch([97, 98], 2, 5) == CopyMatch([97, 98] + [97], 2, 4);
  }

  /** Lengths from 15 on: what is above 15, in bytes of 255 and one that is less. */
  lemma ExampleLengths()
    ensures LengthTail(14) == [] && LengthTail(15) == [0] && LengthTail(269) == [254] && LengthTail(270) == [255, 0]
    ensures LengthTail(533) == [255, 255, 8]
    ensures Token(14, 0) == 0xE0 && Token(15, 20) == 0xFF && Token(533, 3) == 0xF3
    ensures ReadExtension([9, 255, 255, 8, 7], 1) == Some((518, 4))
  {
    assert Extension(254) == [254] && Extension(255) == [255] + Extension(0);
    assert Extension(518) == [255] + Extension(263) && Extension(263) == [255] + Extension(8);
  }

  // ---------- reading what was written ----------

  lemma {:induction false} ExtensionRoundTrip(len: nat, pre: Bytes, post: Bytes)
    ensures |Extension(len)| == len / 255 + 1
    ensures ReadExtension(pre + Extension(len) + post, |pre|) == Some((len, |pre| + |Extension(len)|))
    decreases len
  {
    var src := pre + Extension(len) + post;
    if len >= 255 {
      ExtensionRoundTrip(len - 255, pre + [255], post);
      assert src == (pre + [255]) + Extension(len - 255) + post;
      assert src[|pre|] == 255;
    } else {
      assert src[|pre|] == len;
    }
  }

  lemma LengthRoundTrip(len: nat, pre: Bytes, post: Bytes, w: Width)
    requires len < U32_RANGE
    ensures ReadLength(pre + LengthTail(len) + post, |pre|, Nibble(len), w) == Some((len, |pre| + |LengthTail(len)|))
  {
    if len >= 15 { ExtensionRoundTrip(len - 15, pre, post); }
  }

  lemma LastRoundTrip(l: Bytes, pre: Bytes, w: Width)
    requires |l| < U32_RANGE
    ensures ParseHead(pre + LastBytes(l), |pre|, w) == HLast(l)
  {
    hide ReadLength, LengthTail, AfterLiterals;
    var src, head := pre + LastBytes(l), pre + [Token(|l|, 0)] + LengthTail(|l|);
    assert src == (pre + [Token(|l|, 0)]) + LengthTail(|l|) + l == head + l;
    LengthRoundTrip(|l|, pre + [Token(|l|, 0)], l, w);
    assert src[|pre|] == Token(|l|, 0) && src[|head|..] == l;
  }

  lemma LiteralsRoundTrip(l: Bytes, matchCode: nat, pre: Bytes, post: Bytes, w: Width)
    requires |l| < U32_RANGE
    ensures var head := pre + [Token(|l|, matchCode)] + LengthTail(|l|);
      var src := head + l + post;
      && src[|pre|] == Token(|l|, matchCode)
      && LiteralField(src, |pre|, w) == Some((|l|, |head|))
      && src[|head|..|head| + |l|] == l
  {
    hide ReadLength, LengthTail;
    var t := Token(|l|, matchCode);
    var head := pre + [t] + LengthTail(|l|);
    var src := head + l + post;
    assert src == (pre + [t]) + LengthTail(|l|) + (l + post);
    LengthRoundTrip(|l|, pre + [t], l + post, w);
  }

  lemma MatchRoundTrip(offset: nat, matchLen: nat, litLen: nat, pre: Bytes, post: Bytes, w: Width)
    requires offset <= DISTANCE_MAX && MINMATCH <= matchLen < U32_RANGE
    ensures var src := pre + ([offset % 256, offset / 256] + LengthTail(matchLen - MINMATCH)) + post;
      && OffsetAt(src, |pre|) == offset
      && MatchField(src, Token(litLen, matchLen - MINMATCH), |pre| + 2, w)
           == Some((matchLen, |pre| + 2 + |LengthTail(matchLen - MINMATCH)|))
  {
    hide ReadLength, LengthTail;
    var off := [offset % 256, offset / 256];
    var src := pre + (off + LengthTail(matchLen - MINMATCH)) + post;
    assert src == (pre + off) + LengthTail(matchLen - MINMATCH) + post;
    LengthRoundTrip(matchLen - MINMATCH, pre + off, post, w);
    assert src[|pre|] == offset % 256 && src[|pre| + 1] == offset / 256;
  }

  lemma SequenceRoundTrip(l: Bytes, offset: nat, matchLen: nat, pre: Bytes, post: Bytes, w: Width)
    requires |l| < U32_RANGE && 1 <= offset <= DISTANCE_MAX && MINMATCH <= matchLen < U32_RANGE && post != []
    ensures ParseHead(pre + SequenceBytes(l, offset, matchLen) + post, |pre|, w)
      == HSequence(l, |pre| + 1 + |LengthTail(|l|)| + |l|, offset, matchLen,
                   |pre| + |SequenceBytes(l, offset, matchLen)|)
  {
    hide LengthTail, LiteralField, MatchField, OffsetAt;
    var head := pre + [Token(|l|, matchLen - MINMATCH)] + LengthTail(|l|);
    var mt := [offset % 256, offset / 256] + LengthTail(matchLen - MINMATCH);
    var src := pre + SequenceBytes(l, offset, matchLen) + post;
    assert src == head + l + (mt + post);
    LiteralsRoundTrip(l, matchLen - MINMATCH, pre, mt + post, w);
    assert src == (head + l) + mt + post;
    MatchRoundTrip(offset, matchLen, |l|, head + l, post, w);
  }

  lemma {:induction false} EncodablePositive(b: Block)
    requires Encodable(b)
    ensures OffsetsPositive(b)
  {
    if b.Sequence? { EncodablePositive(b.rest); }
  }

  lemma {:induction false} SerializeNonEmpty(b: Block)
    requires Encodable(b)
    ensures Serialize(b) != []
  {
  }

  /** Reading a written block gives the block back, however lengths are summed. */
  lemma {:induction false} ParseSerialize(b: Block, pre: Bytes, w: Width)
    requires Encodable(b)
    ensures Parse(pre + Serialize(b), |pre|, w) == Parsed(b)
  {
    hide ParseHead, SequenceBytes, LastBytes;
    match b
    case Last(l) =>
      LastRoundTrip(l, pre, w);
    case Sequence(l, offset, matchLen, rest) =>
      SerializeNonEmpty(rest);
      var head := SequenceBytes(l, offset, matchLen);
      SequenceRoundTrip(l, offset, matchLen, pre, Serialize(rest), w);
      ParseSerialize(rest, pre + head, w);
      assert pre + Serialize(b) == pre + head + Serialize(rest);
  }

  // ---------- where the two ways of summing differ ----------

  /** The continuation at `at`, if it ends, stays below 2^32. */
  predicate SumFits(src: Bytes, at: nat) {
    var r := ReadExtension(src, at);
    r.Some? ==> r.value.0 < U32_RANGE
  }

  /** No length that is read from `ip` on is continued beyond 32 bits. */
  predicate SumsFit(src: Bytes, ip: nat)
    decreases |src| - ip
  {
    ip < |src| ==>
      && (src[ip] / 16 == 15 ==> SumFits(src, ip + 1))
      && var h := ParseHead(src, ip);
         h.HSequence? ==> (src[ip] % 16 == 15 ==> SumFits(src, h.litEnd + 2)) && SumsFit(src, h.next)
  }

  /**
   A literal run of 2^32 bytes and more does not fit the input; a match that long is longer than its wrapped
   length.
   */
  lemma HeadsAgree(src: Bytes, ip: nat)
    requires ip < |src| < U32_RANGE
    ensures var h, u := ParseHead(src, ip), ParseHead(src, ip, Unbounded);
      if src[ip] / 16 == 15 && !SumFits(src, ip + 1) then u.HMalformed?
      else if h.HSequence? && src[ip] % 16 == 15 && !SumFits(src, h.litEnd + 2) then
        u.HSequence? && u.next == h.next && u.literals == h.literals && u.matchLen > h.matchLen
      else u == h
  {
    hide ReadExtension;
    if !(src[ip] / 16 == 15 && !SumFits(src, ip + 1)) {
      assert LiteralField(src, ip) == LiteralField(src, ip, Unbounded);
      hide LiteralField;
    }
  }

  /** What the 32-bit sums find malformed is malformed. */
  lemma {:induction false} MalformedEitherWay(src: Bytes, ip: nat)
    requires |src| < U32_RANGE && Parse(src, ip).Malformed?
    ensures Parse(src, ip, Unbounded).Malformed?
    decreases |src| - ip
  {
    hide ParseHead, SumFits;
    if ip < |src| {
      HeadsAgree(src, ip);
      var h := ParseHead(src, ip);
      if h.HSequence? { MalformedEitherWay(src, h.next); }
    } else {
      NothingThere(src, ip);
    }
  }

  lemma NothingThere(src: Bytes, ip: nat)
    requires ip >= |src|
    ensures forall w :: ParseHead(src, ip, w) == HMalformed
  {
  }

  /**
   The 32-bit sums read the block as the format means it exactly if no continuation reaches 2^32, or if
   the block is malformed either way.
   */
  lemma {:induction false} ReadingsAgree(src: Bytes, ip: nat)
    requires |src| < U32_RANGE
    ensures Parse(src, ip) == Parse(src, ip, Unbounded) <==> SumsFit(src, ip) || Parse(src, ip).Malformed?
    decreases |src| - ip
  {
    hide ParseHead, SumFits;
    if Parse(src, ip).Malformed? { MalformedEitherWay(src, ip); }
    if ip < |src| {
      HeadsAgree(src, ip);
      var h := ParseHead(src, ip);
      if h.HSequence? { ReadingsAgree(src, h.next); }
    } else {
      NothingThere(src, ip);
    }
  }

  /** A length beyond 32 bits makes the block longer as the format means it. */
  lemma {:induction false} SizesAgree(src: Bytes, ip: nat)
    requires |src| < U32_RANGE && Parse(src, ip).Parsed? && Parse(src, ip, Unbounded).Parsed?
    ensures Size(Parse(src, ip).block) <= Size(Parse(src, ip, Unbounded).block)
    ensures !SumsFit(src, ip) ==> Size(Parse(src, ip).block) < Size(Parse(src, ip, Unbounded).block)
    decreases |src| - ip
  {
    hide ParseHead, SumFits;
    if ip < |src| {
      HeadsAgree(src, ip);
      var h := ParseHead(src, ip);
      if h.HSequence? { SizesAgree(src, h.next); }
    } else {
      NothingThere(src, ip);
    }
  }

  /** What a block decodes to is its meaning exactly if no length reaches 2^32 and no offset is zero. */
  lemma MeaningExactly(src: Bytes, out: Bytes)
    requires |src| < U32_RANGE && Parse(src, 0).Parsed? && Expand(Parse(src, 0).block, []) == Some(out)
    ensures Meaning(src) == Some(out) <==> SumsFit(src, 0) && OffsetsPositive(Parse(src, 0).block)
  {
    hide Parse, Expand, SumsFit, OffsetsPositive, Size;
    ReadingsAgree(src, 0);
    if Meaning(src) == Some(out) {
      SizesAgree(src, 0);
      ExpandSize(Parse(src, 0).block, []);
      ExpandSize(Parse(src, 0, Unbounded).block, []);
    }
  }

  lemma {:induction false} ExtensionBound(src: Bytes, at: nat)
    requires ReadExtension(src, at).Some?
    ensures var r := ReadExtension(src, at).value; r.0 <= 255 * (r.1 - at) - 1
    decreases |src| - at
  {
    if src[at] == 255 { ExtensionBound(src, at + 1); }
  }

  /** In a block of fewer than 16843011 bytes no length can reach 2^32. */
  lemma {:induction false} ShortBlocksFit(src: Bytes, ip: nat)
    requires |src| <= 16843010
    ensures SumsFit(src, ip)
    decreases |src| - ip
  {
    forall at: nat | at >= 1 ensures SumFits(src, at) {
      if ReadExtension(src, at).Some? { ExtensionBound(src, at); }
    }
    hide ReadExtension, SumFits, ParseHead;
    if ip < |src| && ParseHead(src, ip).HSequence? { ShortBlocksFit(src, ParseHead(src, ip).next); }
  }

  /** A full literal nibble, a continuation that sums to 2^32, and 15 literals: 16843026 bytes. */
  function WrappedBlock(l: Bytes): Bytes {
    [0xF0] + Extension(U32_RANGE) + l
  }

  /**
   In 32 bits the sum is 0 and the run is the 15 literals; as the format means it, the run is longer than
   the input.
   */
  lemma WrappedBlockDiffers(l: Bytes)
    requires |l| == 15
    ensures |WrappedBlock(l)| == 16843026
    ensures Parse(WrappedBlock(l), 0) == Parsed(Last(l)) && Parse(WrappedBlock(l), 0, Unbounded) == Malformed
    ensures ParseHead(WrappedBlock(l), 0) == HLast(l)
  {
    ExtensionRoundTrip(U32_RANGE, [0xF0], l);
    hide Extension, ReadExtension;
    var src := WrappedBlock(l);
    assert src[0] == 0xF0 && src[|src| - 15..] == l;
  }

  // ---------- where a zero offset is read ----------

  /** One literal, a match of 5 at offset 0, and 5 last literals. */
  const ZERO_OFFSET: Bytes := [0x11, 97, 0, 0, 0x50, 1, 2, 3, 4, 5]

  /** The match is read as 5 bytes of zero; the format gives the block no meaning. */
  lemma ZeroOffsetDiffers()
    ensures var b := Sequence([97], 0, 5, Last([1, 2, 3, 4, 5]));
      && Parse(ZERO_OFFSET, 0) == Parsed(b)
      && Expand(b, []) == Some([97, 0, 0, 0, 0, 0, 1, 2, 3, 4, 5])
    ensures Meaning(ZERO_OFFSET) == None
    ensures ParseHead(ZERO_OFFSET, 0) == HSequence([97], 2, 0, 5, 4)
    ensures ParseHead(ZERO_OFFSET, 4) == HLast([1, 2, 3, 4, 5])
  {
    ZeroOffsetHeads();
    hide ParseHead;
    assert Parse(ZERO_OFFSET, 4) == Parsed(Last([1, 2, 3, 4, 5]));
    assert Parse(ZERO_OFFSET, 4, Unbounded) == Parsed(Last([1, 2, 3, 4, 5]));
    assert [] + [97] == [97] && [97] + Zeros(5) == [97, 0, 0, 0, 0, 0];
    assert [97, 0, 0, 0, 0, 0] + [1, 2, 3, 4, 5] == [97, 0, 0, 0, 0, 0, 1, 2, 3, 4, 5];
    assert Expand(Last([1, 2, 3, 4, 5]), Copied([97], 0, 5)) == Some([97, 0, 0, 0, 0, 0] + [1, 2, 3, 4, 5]);
  }

  lemma ZeroOffsetHeads()
    ensures forall w :: ParseHead(ZERO_OFFSET, 0, w) == HSequence([97], 2, 0, 5, 4)
    ensures forall w :: ParseHead(ZERO_OFFSET, 4, w) == HLast([1, 2, 3, 4, 5])
  {
    assert ZERO_OFFSET[1..2] == [97] && ZERO_OFFSET[5..] == [1, 2, 3, 4, 5];
    assert OffsetAt(ZERO_OFFSET, 2) == 0;
    forall w
      ensures LiteralField(ZERO_OFFSET, 0, w) == Some((1, 1)) && LiteralField(ZERO_OFFSET, 4, w) == Some((5, 5))
      ensures MatchField(ZERO_OFFSET, 0x11, 4, w) == Some((5, 4)) {}
    hide LiteralField, MatchField, OffsetAt;
  }

  // ---------- the decoder without its shortcuts ----------

  /**
   Which blocks the general path of the decoder takes, from `ip` with `op` bytes decoded into a buffer of
   `cap`: after literals that are not the last, 12 bytes of output and 8 of input remain, the offset stays
   inside the output, and a match leaves 5 bytes of output.
   */
  predicate Strict(src: Bytes, ip: nat, op: nat, cap: nat)
    decreases |src| - ip
  {
    match ParseHead(src, ip)
    case HLast(l) => op + |l| <= cap
    case HSequence(l, litEnd, offset, matchLen, next) =>
      && op + |l| + MFLIMIT <= cap
      && litEnd + 2 + 1 + LASTLITERALS <= |src|
      && offset <= op + |l|
      && next + LASTLITERALS <= |src|
      && op + |l| + matchLen + LASTLITERALS <= cap
      && Strict(src, next, op + |l| + matchLen, cap)
    case _ => false
  }

  lemma LastSize(src: Bytes, ip: nat)
    requires ParseHead(src, ip).HLast?
    ensures |src| - ip >= 1 + |ParseHead(src, ip).literals|
  {
  }

  lemma LitEndBeforeNext(src: Bytes, ip: nat)
    requires ParseHead(src, ip).HSequence?
    ensures ParseHead(src, ip).litEnd + 2 <= ParseHead(src, ip).next
  {
  }

  /** After a match of a conformant block, input and output both still have room. */
  lemma {:induction false} ConformantRoom(src: Bytes, ip: nat, out: Bytes)
    requires Parse(src, ip).Parsed? && Parse(src, ip).block.Sequence? && Conformant(Parse(src, ip).block)
    requires Expand(Parse(src, ip).block, out).Some?
    ensures var h := ParseHead(src, ip);
      && h.HSequence?
      && |src| - h.next >= 1 + LASTLITERALS
      && |Expand(Parse(src, ip).block, out).value| >= |out| + |h.literals| + h.matchLen + LASTLITERALS
      && |Expand(Parse(src, ip).block, out).value| >= |out| + |h.literals| + MFLIMIT
    decreases |src| - ip
  {
    hide ParseHead;
    var h := ParseHead(src, ip);
    var rest := Parse(src, h.next).block;
    var out' := Copied(out + h.literals, h.offset, h.matchLen);
    if rest.Last? {
      LastSize(src, h.next);
    } else {
      ConformantRoom(src, h.next, out');
    }
  }

  /** A conformant block is taken by the general path with any buffer its contents fit. */
  lemma {:induction false} ConformantIsStrict(src: Bytes, ip: nat, out: Bytes, cap: nat)
    requires Parse(src, ip).Parsed? && Conformant(Parse(src, ip).block)
    requires Expand(Parse(src, ip).block, out).Some? && |Expand(Parse(src, ip).block, out).value| <= cap
    ensures Strict(src, ip, |out|, cap)
    decreases |src| - ip
  {
    hide ParseHead;
    var h := ParseHead(src, ip);
    if h.HSequence? {
      ConformantRoom(src, ip, out);
      LitEndBeforeNext(src, ip);
      ConformantIsStrict(src, h.next, Copied(out + h.literals, h.offset, h.matchLen), cap);
    }
  }

  /** What the general path takes has a meaning, and it fits. */
  lemma {:induction false} StrictHasMeaning(src: Bytes, ip: nat, out: Bytes, cap: nat)
    requires Strict(src, ip, |out|, cap)
    ensures Parse(src, ip).Parsed? && Expand(Parse(src, ip).block, out).Some?
    ensures |Expand(Parse(src, ip).block, out).value| <= cap
    decreases |src| - ip
  {
    hide ParseHead;
    var h := ParseHead(src, ip);
    if h.HSequence? {
      StrictHasMeaning(src, h.next, Copied(out + h.literals, h.offset, h.matchLen), cap);
    }
  }

  // ---------- blocks as lists of sequences ----------

  datatype Seqn = Seqn(literals: Bytes, offset: nat, matchLen: nat)

  predicate SeqnOk(q: Seqn) {
    |q.literals| < U32_RANGE && 1 <= q.offset <= DISTANCE_MAX && MINMATCH <= q.matchLen < U32_RANGE
  }

  /** A list of complete sequences in front of a block. */
  function Assemble(qs: seq<Seqn>, b: Block): Block {
    if qs == [] then b
    else var q := qs[|qs| - 1]; Assemble(qs[..|qs| - 1], Sequence(q.literals, q.offset, q.matchLen, b))
  }

  predicate AllOk(qs: seq<Seqn>) {
    forall i :: 0 <= i < |qs| ==> SeqnOk(qs[i])
  }

  function Written(qs: seq<Seqn>): Bytes
    requires AllOk(qs)
  {
    if qs == [] then []
    else var q := qs[|qs| - 1]; Written(qs[..|qs| - 1]) + SequenceBytes(q.literals, q.offset, q.matchLen)
  }

  function Played(qs: seq<Seqn>): Option<Bytes> {
    if qs == [] then Some([])
    else
      var q := qs[|qs| - 1];
      match Played(qs[..|qs| - 1])
      case None => None
      case Some(out) =>
        if q.offset > |out| + |q.literals| then None
        else Some(Copied(out + q.literals, q.offset, q.matchLen))
  }

  lemma {:induction false} AssembleWritten(qs: seq<Seqn>, b: Block)
    requires AllOk(qs) && Encodable(b)
    ensures Encodable(Assemble(qs, b)) && Serialize(Assemble(qs, b)) == Written(qs) + Serialize(b)
  {
    hide SequenceBytes;
    if qs != [] {
      var q := qs[|qs| - 1];
      AssembleWritten(qs[..|qs| - 1], Sequence(q.literals, q.offset, q.matchLen, b));
    }
  }

  lemma {:induction false} AssemblePlayed(qs: seq<Seqn>, b: Block)
    requires Played(qs).Some?
    ensures Expand(Assemble(qs, b), []) == Expand(b, Played(qs).value)
  {
    if qs != [] {
      var q := qs[|qs| - 1];
      AssemblePlayed(qs[..|qs| - 1], Sequence(q.literals, q.offset, q.matchLen, b));
    }
  }

  /** The end-of-block conditions only speak of the last sequence. */
  lemma {:induction false} AssembleConformant(qs: seq<Seqn>, b: Block)
    requires Conformant(b)
    requires qs != [] && b.Last? ==> |b.literals| >= LASTLITERALS && qs[|qs| - 1].matchLen + |b.literals| >= MFLIMIT
    ensures Conformant(Assemble(qs, b))
  {
    if qs != [] {
      var q := qs[|qs| - 1];
      AssembleConformant(qs[..|qs| - 1], Sequence(q.literals, q.offset, q.matchLen, b));
    }
  }

  // ---------- the block of no bytes ----------

  lemma ShortLast(l: Bytes)
    requires |l| < 15
    ensures LastBytes(l) == [16 * |l|] + l
  {
    hide Extension;
    assert [Token(|l|, 0)] + [] + l == [16 * |l|] + l;
  }

  lemma EmptyLast(l: Bytes)
    requires |l| == 0
    ensures LastBytes(l) == [0]
  {
    hide *;
    ShortLast(l);
  }

  lemma EmptyLastBlock(l: Bytes)
    requires |l| == 0
    ensures Serialize(Last(l)) == [0] && Expand(Last(l), []) == Some(l)
  {
    hide LastBytes;
    EmptyLast(l);
    assert [] + l == l;
  }
}
