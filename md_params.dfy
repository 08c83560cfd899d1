/**
 * The compile-time parameters of a Merkle-Damgard hash (the
 * `md_hash_implementation` concept), the compression capability it plugs
 * in, and the padding the engine must produce: the padding of FIPS 180-4
 * section 5.1 and RFC 1321 sections 3.1 and 3.2 with the bit count
 * truncated to 64 bits. That is the message, one marker byte, the fewest
 * zero bytes that make room for a `ctr_bytes`-wide length field at the very
 * end of a block, and the message length in bits modulo 2^64 stored in the
 * last 8 bytes of that field; any bytes of the field before them are zero.
 */
module MDParams {
  import opened ByteOrder

  /** The digest state (`digest_type`): a fixed-size container of words. */
  type Words = seq<nat>

  /**
   * One concrete hash, as the engine sees it: the five layout constants,
   * the width of a digest word, `MD::init` (the initial digest) and the
   * compression function applied to one `blockBytes`-long block.
   */
  datatype HashParams = HashParams(
    bitEndianness: Endian,
    byteEndianness: Endian,
    blockBytes: nat,
    outputBytes: nat,
    ctrBytes: nat,
    wordBytes: nat,
    init: Words,
    compress: (Words, seq<byte>) -> Words)

  predicate IsPowerOfTwo(n: nat)
    decreases n
  {
    n == 1 || (n >= 2 && n % 2 == 0 && IsPowerOfTwo(n / 2))
  }

  /**
   * The numeric constraints of the `md_hash_implementation` concept, plus
   * what the engine silently relies on: the digest holds at least
   * `outputBytes` bytes and compression keeps its size fixed.
   */
  ghost predicate ValidParams(md: HashParams)
  {
    md.blockBytes >= 64 && IsPowerOfTwo(md.blockBytes) &&
    md.outputBytes >= 16 &&
    md.ctrBytes >= 8 && IsPowerOfTwo(md.ctrBytes) && md.ctrBytes < md.blockBytes &&
    md.wordBytes > 0 && md.outputBytes <= |md.init| * md.wordBytes &&
    forall d: Words, block: seq<byte> :: |md.compress(d, block)| == |d|
  }

  /** The padding byte: its most significant bit for big bit order, its least otherwise. */
  function Marker(md: HashParams): (r: byte)
  {
    if md.bitEndianness == Big then 0x80 else 0x01
  }

  /** `MD::compress_n`: the compression function run over consecutive whole blocks. */
  function CompressAll(md: HashParams, d: Words, data: seq<byte>): (r: Words)
    requires md.blockBytes > 0 && |data| % md.blockBytes == 0
    decreases |data|
  {
    if |data| == 0 then d
    else
      BlockStep(|data|, md.blockBytes);
      CompressAll(md, md.compress(d, data[..md.blockBytes]), data[md.blockBytes..])
  }

  /** The longest prefix of `m` made of whole blocks. */
  function WholeBlocks(md: HashParams, m: seq<byte>): (r: seq<byte>)
    requires md.blockBytes > 0
  {
    m[..|m| - |m| % md.blockBytes]
  }

  /** What is left of `m` after its whole blocks: fewer than one block. */
  function Remainder(md: HashParams, m: seq<byte>): (r: seq<byte>)
    requires md.blockBytes > 0
  {
    m[|m| - |m| % md.blockBytes..]
  }

  /** The 8-byte length field: the bit length modulo 2^64, in the hash's byte order. */
  function LengthField(md: HashParams, bitCount: nat): (r: seq<byte>)
  {
    Store(md.byteEndianness, bitCount % U64, 8)
  }

  /**
   * The number of zero bytes the standard puts between the marker and the
   * `ctrBytes`-wide length field of a message of `len` bytes.
   */
  function PadZeros(md: HashParams, len: nat): (r: nat)
    requires md.blockBytes > 0
  {
    (md.blockBytes - (len + 1 + md.ctrBytes) % md.blockBytes) % md.blockBytes
  }

  /**
   * The standards' padding with the bit count truncated to 64 bits: the
   * message, the marker, zeros, and a `ctrBytes`-wide length field whose
   * last 8 bytes hold the bit length modulo 2^64 in the hash's byte order
   * and whose other bytes are zero.
   */
  function Padded(md: HashParams, m: seq<byte>): (r: seq<byte>)
    requires ValidParams(md)
  {
    m + [Marker(md)] + Zeros(PadZeros(md, |m|) + md.ctrBytes - 8) + LengthField(md, |m| * 8)
  }

  /**
   * What `final` hands to the compression function, given `pending`, the
   * buffered bytes with the marker already appended, and the 64-bit
   * counter value `bitCount`: one block if the counter still fits behind
   * the marker, otherwise a zero-filled block and then a block of zeros
   * ending in the counter.
   */
  function FinalBlocks(md: HashParams, pending: seq<byte>, bitCount: nat): (r: seq<byte>)
    requires ValidParams(md) && |pending| <= md.blockBytes
  {
    var free := md.blockBytes - |pending|;
    if free < md.ctrBytes then
      pending + Zeros(free) + Zeros(md.blockBytes - 8) + LengthField(md, bitCount)
    else
      pending + Zeros(free - 8) + LengthField(md, bitCount)
  }

  /** Per-word serialisation of a digest (`copy_out_vec_be` / `copy_out_vec_le`, untruncated). */
  function Serialize(e: Endian, wordBytes: nat, d: Words): (r: seq<byte>)
  {
    if d == [] then [] else Store(e, d[0], wordBytes) + Serialize(e, wordBytes, d[1..])
  }

  /** `copy_out_vec_be` / `copy_out_vec_le`: the first `outputBytes` bytes of the serialised digest. */
  function DigestBytes(md: HashParams, d: Words): (r: seq<byte>)
    requires ValidParams(md) && |d| == |md.init|
    ensures |r| == md.outputBytes
  {
    SerializeLength(md.byteEndianness, md.wordBytes, d);
    Serialize(md.byteEndianness, md.wordBytes, d)[..md.outputBytes]
  }

  /** The digest of message `m`: compress the padded message, serialise, keep `outputBytes`. */
  function DigestOf(md: HashParams, m: seq<byte>): (r: seq<byte>)
    requires ValidParams(md)
    ensures |r| == md.outputBytes
  {
    PaddedLength(md, m);
    CompressAllLength(md, md.init, Padded(md, m));
    DigestBytes(md, CompressAll(md, md.init, Padded(md, m)))
  }

  // ---------------------------------------------------------------------
  // The compression capability
  // ---------------------------------------------------------------------

  /** Compressing `a` and then `b` is compressing `a + b`: blocks may be handed over in any grouping. */
  lemma {:induction false} CompressAllAppend(md: HashParams, d: Words, a: seq<byte>, b: seq<byte>)
    requires md.blockBytes > 0 && |a| % md.blockBytes == 0 && |b| % md.blockBytes == 0
    ensures |a + b| % md.blockBytes == 0
    ensures CompressAll(md, d, a + b) == CompressAll(md, CompressAll(md, d, a), b)
    decreases |a|
  {
    var B := md.blockBytes;
    ModAddMultiple(|a|, |b|, B);
    if |a| > 0 {
      BlockStep(|a|, B);
      assert (a + b)[..B] == a[..B];
      assert (a + b)[B..] == a[B..] + b;
      CompressAllAppend(md, md.compress(d, a[..B]), a[B..], b);
    } else {
      assert a + b == b;
    }
  }

  /** Compression never changes the size of the digest state. */
  lemma {:induction false} CompressAllLength(md: HashParams, d: Words, data: seq<byte>)
    requires ValidParams(md) && |data| % md.blockBytes == 0
    ensures |CompressAll(md, d, data)| == |d|
    decreases |data|
  {
    var B := md.blockBytes;
    if |data| > 0 {
      BlockStep(|data|, B);
      CompressAllLength(md, md.compress(d, data[..B]), data[B..]);
    }
  }

  // ---------------------------------------------------------------------
  // Arithmetic helpers
  // ---------------------------------------------------------------------

  /** A non-empty run of whole blocks starts with a whole block and continues with whole blocks. */
  lemma BlockStep(n: nat, b: nat)
    requires b > 0 && n % b == 0 && n > 0
    ensures n >= b && (n - b) % b == 0
  {
    var k := n / b;
    assert n == k * b;
    assert n - b == (k - 1) * b;
    ModUnique(n - b, b, k - 1, 0);
  }

  /** Adding a multiple of `m` does not change a remainder modulo `m`. */
  lemma ModAddMultiple(w: nat, x: nat, m: nat)
    requires m > 0 && w % m == 0
    ensures (w + x) % m == x % m
  {
    var a := w / m;
    assert w == a * m;
    assert w + x == (a + x / m) * m + x % m by {
      assert x == (x / m) * m + x % m;
      assert a * m + (x / m) * m == (a + x / m) * m;
    }
    ModUnique(w + x, m, a + x / m, x % m);
  }

  /** A length is its whole blocks plus a remainder shorter than a block. */
  lemma SplitBlocks(md: HashParams, m: seq<byte>)
    requires md.blockBytes > 0
    ensures WholeBlocks(md, m) + Remainder(md, m) == m
    ensures |WholeBlocks(md, m)| % md.blockBytes == 0
    ensures |Remainder(md, m)| == |m| % md.blockBytes < md.blockBytes
  {
    var B := md.blockBytes;
    ModUnique(|m| - |m| % B, B, |m| / B, 0);
  }

  /**
   * The decomposition of a message into whole blocks and a short remainder
   * is unique, so whatever holds blocks-plus-buffer equal to the message
   * holds exactly WholeBlocks and Remainder.
   */
  lemma SplitUnique(md: HashParams, m: seq<byte>, blocks: seq<byte>, rest: seq<byte>)
    requires md.blockBytes > 0
    requires blocks + rest == m && |blocks| % md.blockBytes == 0 && |rest| < md.blockBytes
    ensures blocks == WholeBlocks(md, m) && rest == Remainder(md, m)
  {
    var B := md.blockBytes;
    ModUnique(|m|, B, |blocks| / B, |rest|);
    assert blocks == m[..|blocks|];
  }

  /** `k` whole blocks are a multiple of the block size. */
  lemma MultipleOfBlock(k: nat, b: nat)
    requires b > 0
    ensures (k * b) % b == 0
  {
    ModUnique(k * b, b, k, 0);
  }

  /** Adding to a counter kept modulo `m` is adding modulo `m`. */
  lemma AddWraps(a: nat, b: nat, m: nat)
    requires m > 0
    ensures (a % m + b) % m == (a + b) % m
  {
    var q := a / m;
    assert a + b == q * m + (a % m + b);
    MultipleOfBlock(q, m);
    ModAddMultiple(q * m, a % m + b, m);
  }

  /** The counter counts bytes modulo 2^64, so the bit count is the bit length modulo 2^64. */
  lemma BitCountWraps(len: nat)
    ensures ((len % U64) * 8) % U64 == (len * 8) % U64
  {
    var q := len / U64;
    assert len * 8 == (q * 8) * U64 + (len % U64) * 8 by {
      assert len == q * U64 + len % U64;
    }
    ModAddMultiple((q * 8) * U64, (len % U64) * 8, U64);
  }

  lemma ZerosAppend(a: nat, b: nat)
    ensures Zeros(a) + Zeros(b) == Zeros(a + b)
  {
  }

  // ---------------------------------------------------------------------
  // The padding
  // ---------------------------------------------------------------------

  /**
   * The padded message is the message, then the marker, and ends in the
   * length field; its length is the least multiple of the block size that
   * holds the message, the marker and `ctrBytes` counter bytes.
   */
  lemma PaddedLength(md: HashParams, m: seq<byte>)
    requires ValidParams(md)
    ensures var p := Padded(md, m);
      |p| % md.blockBytes == 0 &&
      |m| + 1 + md.ctrBytes <= |p| < |m| + 1 + md.ctrBytes + md.blockBytes &&
      p[..|m|] == m && p[|m|] == Marker(md) &&
      p[|p| - 8..] == LengthField(md, |m| * 8)
  {
    PadZerosSpec(md.blockBytes, |m| + 1 + md.ctrBytes);
    var p := Padded(md, m);
    assert |p| == |m| + 1 + md.ctrBytes + PadZeros(md, |m|);
    assert p[..|m|] == m;
  }

  /** Topping `n` up by `(b - n % b) % b` reaches the next multiple of `b`, and adds less than `b`. */
  lemma PadZerosSpec(b: nat, n: nat)
    requires b > 0
    ensures (b - n % b) % b < b
    ensures (n + (b - n % b) % b) % b == 0
  {
    var r := n % b;
    var q := n / b;
    assert n == q * b + r;
    if r == 0 {
      ModUnique(b, b, 1, 0);
      assert (b - r) % b == 0;
      ModUnique(n, b, q, 0);
    } else {
      ModUnique(b - r, b, 0, b - r);
      assert n + (b - r) == (q + 1) * b;
      ModUnique(n + (b - r), b, q + 1, 0);
    }
  }

  /** The blocks `final` compresses: one or two, starting with `pending`, ending in the counter. */
  lemma FinalBlocksShape(md: HashParams, pending: seq<byte>, bitCount: nat)
    requires ValidParams(md) && |pending| <= md.blockBytes
    ensures var f := FinalBlocks(md, pending, bitCount);
      var B := md.blockBytes;
      |f| == (if B - |pending| < md.ctrBytes then 2 * B else B) &&
      f[..|pending|] == pending &&
      f[|f| - 8..] == LengthField(md, bitCount) &&
      (forall i :: |pending| <= i < |f| - 8 ==> f[i] == 0) &&
      (|f| == 2 * B ==> f[B..] == Zeros(B - 8) + LengthField(md, bitCount))
  {
    var f := FinalBlocks(md, pending, bitCount);
    var B, free := md.blockBytes, md.blockBytes - |pending|;
    if free < md.ctrBytes {
      assert f == pending + Zeros(free) + (Zeros(B - 8) + LengthField(md, bitCount));
      assert f[B..] == Zeros(B - 8) + LengthField(md, bitCount);
    }
    assert f[..|pending|] == pending;
  }

  /**
   * The engine's padding is `Padded`: the whole blocks of the message
   * followed by the blocks `final` builds from the remainder, the marker
   * and the wrapped 64-bit counter are exactly the padded message.
   */
  lemma FinalBlocksArePadding(md: HashParams, m: seq<byte>)
    requires ValidParams(md)
    ensures |Remainder(md, m) + [Marker(md)]| <= md.blockBytes
    ensures WholeBlocks(md, m) + FinalBlocks(md, Remainder(md, m) + [Marker(md)], ((|m| % U64) * 8) % U64)
            == Padded(md, m)
  {
    var B := md.blockBytes;
    SplitBlocks(md, m);
    var pending := Remainder(md, m) + [Marker(md)];
    var p := |pending|;
    var bitCount := ((|m| % U64) * 8) % U64;
    BitCountWraps(|m|);
    ModUnique(bitCount, U64, 0, bitCount);
    assert LengthField(md, bitCount) == LengthField(md, |m| * 8);
    PadZerosAfterRemainder(md, |m|);
    if B - p < md.ctrBytes {
      ZerosAppend(B - p, B - 8);
      assert FinalBlocks(md, pending, bitCount)
          == pending + (Zeros(B - p) + Zeros(B - 8)) + LengthField(md, bitCount);
    }
    assert WholeBlocks(md, m) + pending == m + [Marker(md)];
  }

  /**
   * With `p` bytes pending after the marker (the remainder plus one), the
   * standard's zero count is what fills the rest of this block, or of the
   * next one when the length field does not fit behind the marker.
   */
  lemma PadZerosAfterRemainder(md: HashParams, len: nat)
    requires ValidParams(md)
    ensures var B, p := md.blockBytes, len % md.blockBytes + 1;
      PadZeros(md, len) == if B - p < md.ctrBytes then 2 * B - p - md.ctrBytes else B - p - md.ctrBytes
  {
    ZerosToBoundary(md.blockBytes, md.ctrBytes, len);
  }

  lemma ZerosToBoundary(B: nat, ctr: nat, len: nat)
    requires 0 < ctr < B
    ensures var p := len % B + 1;
      (B - (len + 1 + ctr) % B) % B == if B - p < ctr then 2 * B - p - ctr else B - p - ctr
  {
    var p := len % B + 1;
    var w := len - len % B;
    ModUnique(w, B, len / B, 0);
    ModAddMultiple(w, p + ctr, B);
    assert len + 1 + ctr == w + (p + ctr);
    if B - p < ctr {
      ModUnique(p + ctr, B, 1, p + ctr - B);
      ModUnique(2 * B - p - ctr, B, 0, 2 * B - p - ctr);
    } else if p + ctr == B {
      ModUnique(B, B, 1, 0);
    } else {
      ModUnique(p + ctr, B, 0, p + ctr);
      ModUnique(B - p - ctr, B, 0, B - p - ctr);
    }
  }

  /**
   * The padding marks an unambiguous message boundary: two messages with
   * the same padded form are the same message, whatever their lengths. The
   * marker right after the longer message would otherwise have to match a
   * zero byte of the shorter one's padding.
   */
  lemma PaddingInjective(md: HashParams, m1: seq<byte>, m2: seq<byte>)
    requires ValidParams(md)
    requires Padded(md, m1) == Padded(md, m2)
    ensures m1 == m2
  {
    if |m1| < |m2| {
      MarkerMeetsZero(md, m1, m2);
    } else if |m2| < |m1| {
      MarkerMeetsZero(md, m2, m1);
    }
    PaddedLength(md, m1);
    PaddedLength(md, m2);
  }

  /**
   * Padded forms of different length differ; when the lengths are equal,
   * the shorter message's padding holds a zero byte where the longer
   * message's marker sits.
   */
  lemma MarkerMeetsZero(md: HashParams, short: seq<byte>, long: seq<byte>)
    requires ValidParams(md) && |short| < |long|
    ensures Padded(md, short) != Padded(md, long)
  {
    var p, q := Padded(md, short), Padded(md, long);
    PaddedLength(md, long);
    if |p| == |q| {
      var zeros := Zeros(PadZeros(md, |short|) + md.ctrBytes - 8);
      assert p == short + [Marker(md)] + zeros + LengthField(md, |short| * 8);
      var i := |long| - |short| - 1;
      assert i < |zeros|;
      assert p[|long|] == zeros[i] == 0;
      assert q[|long|] == Marker(md) != 0;
    }
  }

  /**
   * The 8-byte length field denotes the bit count modulo 2^64, read back in
   * the hash's byte order.
   */
  lemma LengthFieldValue(md: HashParams, bitCount: nat)
    ensures Load(md.byteEndianness, LengthField(md, bitCount)) == bitCount % U64
  {
    LoadStore(md.byteEndianness, bitCount % U64, 8);
    Pow256Eight();
    ModUnique(bitCount % U64, U64, 0, bitCount % U64);
  }

  // ---------------------------------------------------------------------
  // The digest serialisation
  // ---------------------------------------------------------------------

  /** Every word contributes `wordBytes` bytes. */
  lemma {:induction false} SerializeLength(e: Endian, wordBytes: nat, d: Words)
    ensures |Serialize(e, wordBytes, d)| == |d| * wordBytes
  {
    if d != [] {
      SerializeLength(e, wordBytes, d[1..]);
      assert |d| * wordBytes == (|d| - 1) * wordBytes + wordBytes;
    }
  }

  /** Byte `j` of word `k` of the digest lands at offset `i = k * w + j` of its serialisation. */
  lemma {:induction false} SerializeAt(e: Endian, w: nat, d: Words, k: nat, j: nat, i: nat)
    requires k < |d| && j < w && i == k * w + j
    ensures i < |Serialize(e, w, d)|
    ensures Serialize(e, w, d)[i] == Store(e, d[k], w)[j]
    decreases k
  {
    var head, tail := Store(e, d[0], w), Serialize(e, w, d[1..]);
    assert Serialize(e, w, d) == head + tail;
    if k > 0 {
      MulPred(k, w);
      SerializeAt(e, w, d[1..], k - 1, j, i - w);
      assert d[1..][k - 1] == d[k];
    }
  }

  lemma MulPred(k: nat, w: nat)
    requires k > 0
    ensures k * w == (k - 1) * w + w && (k - 1) * w >= 0
  {
  }
}
