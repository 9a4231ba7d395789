/** Compression and decompression together. */
module Lz4RoundTrip {
  import opened Values
  import opened Wrappers
  import opened Lz4Format
  import Lz4Greedy
  import Lz4Compress
  import Lz4Decompress

  /**
   A block of `src` is read back, by the general path already, into a buffer of its size or more, and what
   is read is what the format means.
   */
  lemma BlockDecodes(out: Bytes, src: Bytes, cap: nat)
    requires Lz4Greedy.IsBlockOf(out, src) && |src| <= cap
    ensures Parse(out, 0).Parsed? && Conformant(Parse(out, 0).block)
    ensures Expand(Parse(out, 0).block, []) == Some(src) && Meaning(out) == Some(src)
    ensures Strict(out, 0, 0, cap) && Lz4Decompress.Taken(out, cap)
  {
    var b :| Encodable(b) && Conformant(b) && Expand(b, []) == Some(src) && out == Serialize(b);
    ParseSerialize(b, [], Word32);
    ParseSerialize(b, [], Unbounded);
    EncodablePositive(b);
    assert [] + Serialize(b) == out;
    ConformantIsStrict(out, 0, [], cap);
    Lz4Decompress.StrictIsAccepted(out, 0, 0, cap, cap >= Lz4Decompress.FASTLOOP_SAFE_DISTANCE);
  }

  /**
   The round trip, for every input of a supported size, every hash function and every acceleration: what the
   compressor wrote decompresses, into a buffer of any sufficient size, to the input and nothing else.
   */
  method RoundTrip(src: Bytes, hash: Bytes -> nat, acceleration: int, capacity: nat) returns (n: int, back: Bytes)
    requires |src| <= Lz4Greedy.MAX_INPUT_SIZE && |src| <= capacity
    requires Lz4Greedy.HashFits(hash, Lz4Greedy.TableSize(Lz4Greedy.TableFor(|src|)))
    ensures n == |src| && back == src
  {
    var bound := Lz4Compress.CompressBound(|src|);
    var packed := new Byte[bound];
    var r := Lz4Compress.CompressFast(src, packed, hash, bound, acceleration);
    var out := packed[..r];
    BlockDecodes(out, src, capacity);
    var dst := new Byte[capacity];
    n := Lz4Decompress.DecompressSafe(out, dst);
    if capacity == 0 { EmptyBlockBytes(out, src); }
    back := if n >= 0 then dst[..n] else [];
  }

  /** A limited output that the compressor did accept decompresses in the same way. */
  method LimitedRoundTrip(src: Bytes, hash: Bytes -> nat, maxOutputSize: int, room: nat) returns (r: nat, back: Bytes)
    requires maxOutputSize <= room && maxOutputSize < 0x8000_0000
    requires Lz4Greedy.HashFits(hash, Lz4Greedy.TableSize(Lz4Greedy.TableFor(|src|)))
    ensures r > 0 ==> r <= maxOutputSize && back == src
  {
    var packed := new Byte[room];
    r := Lz4Compress.CompressDefault(src, packed, hash, maxOutputSize);
    back := [];
    if r > 0 {
      var out := packed[..r];
      BlockDecodes(out, src, |src|);
      var dst := new Byte[|src|];
      var n := Lz4Decompress.DecompressSafe(out, dst);
      if |src| == 0 { EmptyBlockBytes(out, src); }
      back := if n >= 0 then dst[..n] else [];
    }
  }

  /** An output buffer of no bytes is the empty input, whose block is the single byte 0. */
  lemma EmptyBlockBytes(out: Bytes, src: Bytes)
    requires Lz4Greedy.IsBlockOf(out, src) && src == []
    ensures out == [0]
  {
    var b :| Encodable(b) && Conformant(b) && Expand(b, []) == Some(src) && out == Serialize(b);
    match b
    case Last(l) =>
      hide LastBytes;
      assert l == [] + l == [];
      EmptyLast(l);
    case Sequence(l, offset, matchLen, rest) =>
      ExpandSize(rest, Copied([] + l, offset, matchLen));
  }
}
