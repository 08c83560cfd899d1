/**
 * The incremental Merkle-Damgard engine (`MerkleDamgard_Hash<MD>`): it
 * feeds whole blocks of the input to the compression function as they
 * become available, keeps the rest in an alignment buffer, counts the
 * input bytes modulo 2^64, and on `final` pads the message, compresses the
 * last one or two blocks, writes the digest out and starts over.
 *
 * Two ghost fields record what happened since the last `clear`: the bytes
 * absorbed (`Message`) and the bytes handed to the compression function
 * (`Compressed`). The object invariant ties the real state to them, so
 * that the digest written by `final` is `DigestOf(md, Message)`.
 */
module MerkleDamgard {
  import opened ByteOrder
  import opened MDParams
  import opened Alignment

  /** What an engine holds between calls. */
  datatype EngineState = EngineState(digest: Words, count: nat, buffered: seq<byte>)

  /**
   * The state an engine reaches after absorbing `m` since its last `clear`:
   * the compression of the whole blocks of `m`, its length modulo 2^64, and
   * the bytes that do not fill a block.
   */
  ghost function StateAfter(md: HashParams, m: seq<byte>): (r: EngineState)
    requires ValidParams(md)
  {
    SplitBlocks(md, m);
    EngineState(CompressAll(md, md.init, WholeBlocks(md, m)), |m| % U64, Remainder(md, m))
  }

  class MerkleDamgardHash {
    const md: HashParams
    var digest: Words
    var count: nat
    const buffer: AlignmentBuffer

    /** Every byte absorbed by `Update` since the last `Clear`. */
    ghost var Message: seq<byte>
    /** Every byte handed to the compression function since the last `Clear`. */
    ghost var Compressed: seq<byte>

    /** The parameters meet the concept's constraints and the buffer is one block wide. */
    ghost predicate WellFormed()
      reads this, buffer
    {
      ValidParams(md) && buffer.Valid() && buffer.blockBytes == md.blockBytes
    }

    /** Only whole blocks were compressed, and the digest is their compression. */
    ghost predicate DigestConsistent()
      reads this, buffer
    {
      WellFormed() && |Compressed| % md.blockBytes == 0 &&
      digest == CompressAll(md, md.init, Compressed)
    }

    /**
     * Between calls: the compressed bytes followed by the buffered bytes
     * are the message, the buffer is never full, and the counter holds the
     * message length modulo 2^64.
     */
    ghost predicate Valid()
      reads this, buffer, buffer.data
    {
      DigestConsistent() &&
      Compressed + buffer.Contents() == Message &&
      buffer.position < md.blockBytes &&
      count == |Message| % U64
    }

    constructor (md: HashParams)
      requires ValidParams(md)
      ensures Valid() && fresh(buffer) && fresh(buffer.data)
      ensures this.md == md && Message == [] && Compressed == []
      ensures digest == md.init && count == 0
    {
      this.md := md;
      buffer := new AlignmentBuffer(md.blockBytes);
      new;
      Clear();
    }

    /**
     * The state between calls is a function of the message alone: the
     * compressed bytes are its whole blocks, the buffer holds the rest.
     */
    lemma StateOfMessage()
      requires Valid()
      ensures Compressed == WholeBlocks(md, Message)
      ensures buffer.Contents() == Remainder(md, Message)
      ensures digest == CompressAll(md, md.init, WholeBlocks(md, Message))
    {
      SplitUnique(md, Message, Compressed, buffer.Contents());
    }

    /**
     * Reads off the digest words, the counter and the buffered bytes: they
     * are determined by the message absorbed since the last `clear`.
     */
    method Snapshot() returns (s: EngineState)
      requires Valid()
      ensures s == EngineState(digest, count, buffer.Contents()) == StateAfter(md, Message)
    {
      StateOfMessage();
      s := EngineState(digest, count, buffer.data[..buffer.position]);
    }

    /** Reinitialises the digest, empties the buffer and zeroes the counter. */
    method Clear()
      requires WellFormed()
      modifies this, buffer, buffer.data
      ensures Valid() && Message == [] && Compressed == []
      ensures digest == md.init && count == 0
    {
      digest := md.init;
      buffer.Clear();
      count := 0;
      Message := [];
      Compressed := [];
    }

    /** `MD::compress_n`: hands `blocks` whole blocks to the compression function. */
    method CompressN(data: seq<byte>, blocks: nat)
      requires DigestConsistent() && |data| == blocks * md.blockBytes
      modifies this`digest, this`Compressed
      ensures DigestConsistent() && Compressed == old(Compressed) + data
    {
      MultipleOfBlock(blocks, md.blockBytes);
      CompressAllAppend(md, md.init, Compressed, data);
      digest := CompressAll(md, digest, data);
      Compressed := Compressed + data;
    }

    /**
     * Absorbs `input`: the blocks handed to the compression function,
     * followed by what is left in the buffer, are the bytes buffered
     * before followed by `input`, and the counter grows by `|input|`
     * modulo 2^64.
     */
    method Update(input: seq<byte>)
      requires Valid()
      modifies this, buffer, buffer.data
      ensures Valid() && Message == old(Message) + input
      ensures count == (old(count) + |input|) % U64
      ensures old(Compressed) <= Compressed
      ensures Compressed[|old(Compressed)|..] + buffer.Contents() == old(buffer.Contents()) + input
    {
      ghost var c0, b0 := Compressed, buffer.Contents();
      var cursor := 0;
      while cursor < |input|
        invariant cursor <= |input|
        invariant DigestConsistent() && buffer.position < md.blockBytes
        invariant c0 <= Compressed
        invariant Compressed[|c0|..] + buffer.Contents() == b0 + input[..cursor]
        invariant Message == old(Message) && count == old(count)
        decreases |input| - cursor
      {
        ghost var fed, held := Compressed[|c0|..], buffer.Contents();
        ghost var c1 := Compressed;
        var next := Absorb(input, cursor);
        Extend(c0, c1, Compressed, fed, buffer.Contents(), held + input[cursor..next]);
        Regroup(fed, held, b0, input[..cursor], input[cursor..next]);
        Prefixes(input, cursor, next);
        cursor := next;
      }
      assert input[..cursor] == input;
      Extend([], c0, Compressed, c0, buffer.Contents(), b0 + input);
      AddWraps(|old(Message)|, |input|, U64);
      count := (count + |input|) % U64;
      Message := Message + input;
    }

    /** One round of the `update` loop. */
    method Absorb(input: seq<byte>, cursor: nat) returns (next: nat)
      requires DigestConsistent() && buffer.position < md.blockBytes && cursor < |input|
      modifies this`digest, this`Compressed, buffer, buffer.data
      ensures DigestConsistent() && buffer.position < md.blockBytes
      ensures cursor < next <= |input|
      ensures old(Compressed) <= Compressed
      ensures Compressed[|old(Compressed)|..] + buffer.Contents() == old(buffer.Contents()) + input[cursor..next]
    {
      ghost var c0, b0 := Compressed, buffer.Contents();
      var oneBlock, n1 := buffer.HandleUnalignedData(input, cursor);
      if oneBlock.Some? {
        CompressN(oneBlock.value, 1);
      }
      assert Compressed[|c0|..] + buffer.Contents() == b0 + input[cursor..n1];
      next := n1;
      if buffer.InAlignment() {
        ghost var c1 := Compressed;
        var aligned, fullBlocks, n2 := buffer.AlignedDataToProcess(input, next);
        if fullBlocks > 0 {
          CompressN(aligned, fullBlocks);
        }
        Extend(c0, c1, Compressed, b0 + input[cursor..n1], [], input[n1..n2]);
        assert input[cursor..n1] + input[n1..n2] == input[cursor..n2];
        next := n2;
      }
    }

    /** Appends the marker byte: 0x80 for big bit order, 0x01 otherwise. */
    method AppendPaddingBit()
      requires Valid()
      modifies buffer, buffer.data
      ensures DigestConsistent() && Compressed == old(Compressed)
      ensures buffer.Contents() == old(buffer.Contents()) + [Marker(md)]
    {
      assert !buffer.ReadyToConsume();
      if md.bitEndianness == Big {
        buffer.Append([0x80]);
      } else {
        buffer.Append([0x01]);
      }
    }

    /**
     * Compresses the buffered bytes (the marker already among them) padded
     * with zeros, and the 64-bit bit count `count * 8` in the last 8 bytes
     * of the last block; when fewer than `ctrBytes` bytes are free, an
     * extra zero-filled block comes first.
     */
    method AppendCounterAndFinalize()
      requires DigestConsistent() && 1 <= |buffer.Contents()|
      modifies this`digest, this`Compressed, buffer, buffer.data
      ensures DigestConsistent() && buffer.Contents() == []
      ensures Compressed == old(Compressed) + FinalBlocks(md, old(buffer.Contents()), (count * 8) % U64)
    {
      ghost var c0, pending := Compressed, buffer.Contents();
      ghost var free := buffer.ElementsUntilAlignment();
      if buffer.ElementsUntilAlignment() < md.ctrBytes {
        buffer.FillUpWithZeros();
        var block := buffer.Consume();
        CompressN(block, 1);
      }

      assert buffer.ElementsUntilAlignment() >= md.ctrBytes;
      ghost var c1, tail, gap := Compressed, buffer.Contents(), buffer.ElementsUntilAlignment();
      var bitCount := (count * 8) % U64;
      CompressLastBlock(bitCount);
      FinalBlocksAssembled(md, c0, pending, c1, tail, gap, Compressed, bitCount);
    }

    /**
     * The last block: the buffered bytes, zeros, and `bitCount` stored in
     * the hash's byte order over the last 8 bytes.
     */
    method CompressLastBlock(bitCount: nat)
      requires DigestConsistent() && buffer.ElementsUntilAlignment() >= 8 && bitCount < U64
      modifies this`digest, this`Compressed, buffer, buffer.data
      ensures DigestConsistent() && buffer.Contents() == []
      ensures Compressed == old(Compressed) + (old(buffer.Contents()) + Zeros(old(buffer.ElementsUntilAlignment()) - 8) + LengthField(md, bitCount))
    {
      ghost var tail, gap := buffer.Contents(), buffer.ElementsUntilAlignment();
      buffer.FillUpWithZeros();
      ghost var filled := buffer.data[..];
      ModUnique(bitCount, U64, 0, bitCount);
      buffer.DirectlyModifyLast(Store(md.byteEndianness, bitCount, 8));
      OverwriteLast(tail, gap, filled, buffer.data[..], LengthField(md, bitCount));
      var block := buffer.Consume();
      CompressN(block, 1);
    }

    /**
     * Writes the first `outputBytes` bytes of the digest, each word
     * serialised in the hash's byte order, into `output`.
     */
    method CopyOutput(output: array<byte>)
      requires WellFormed() && |digest| == |md.init| && output.Length >= md.outputBytes
      modifies output
      ensures output[..md.outputBytes] == DigestBytes(md, digest)
      ensures output[md.outputBytes..] == old(output[md.outputBytes..])
    {
      SerializeLength(md.byteEndianness, md.wordBytes, digest);
      CopyOutVec(md.byteEndianness, md.wordBytes, output, md.outputBytes, digest);
    }

    /**
     * Finishes the message: pads it, writes its digest into the first
     * `outputBytes` bytes of `output`, and leaves the engine as a freshly
     * constructed one.
     */
    method Final(output: array<byte>)
      requires Valid() && output.Length >= md.outputBytes && output != buffer.data
      modifies this, buffer, buffer.data, output
      ensures Valid() && Message == [] && Compressed == []
      ensures digest == md.init && count == 0
      ensures output[..md.outputBytes] == DigestOf(md, old(Message))
      ensures output[md.outputBytes..] == old(output[md.outputBytes..])
    {
      ghost var m := Message;
      StateOfMessage();
      AppendPaddingBit();
      AppendCounterAndFinalize();
      FinalBlocksArePadding(md, m);
      assert Compressed == Padded(md, m);
      PaddedLength(md, m);
      CompressAllLength(md, md.init, Padded(md, m));
      CopyOutput(output);
      Clear();
    }
  }

  /**
   * `copy_out_vec_be` / `copy_out_vec_le`: writes the first `n` bytes of
   * the words of `d`, each stored in byte order `e`, into `out`.
   */
  method CopyOutVec(e: Endian, w: nat, out: array<byte>, n: nat, d: Words)
    requires w > 0 && n <= out.Length && n <= |d| * w
    modifies out
    ensures |Serialize(e, w, d)| == |d| * w && out[..n] == Serialize(e, w, d)[..n]
    ensures out[n..] == old(out[n..])
  {
    ghost var s := Serialize(e, w, d);
    SerializeLength(e, w, d);
    var i, k, j := 0, 0, 0;
    while i < n
      invariant i <= n && j < w && i == k * w + j
      invariant out[..i] == s[..i]
      invariant out[n..] == old(out[n..])
    {
      WordIndexBound(k, j, w, |d|);
      SerializeAt(e, w, d, k, j, i);
      out[i] := Store(e, d[k], w)[j];
      assert out[..i + 1] == out[..i] + [s[i]];
      NextOffset(i, k, j, w);
      i := i + 1;
      if j + 1 == w {
        k, j := k + 1, 0;
      } else {
        j := j + 1;
      }
    }
  }

  /** Advancing the byte offset moves to the next byte of the word, or to the start of the next word. */
  lemma NextOffset(i: nat, k: nat, j: nat, w: nat)
    requires j < w && i == k * w + j
    ensures if j + 1 == w then i + 1 == (k + 1) * w + 0 else i + 1 == k * w + (j + 1)
  {
    if j + 1 == w {
      MulPred(k + 1, w);
    }
  }

  /** A byte offset inside a digest of `n` words of `w` bytes lies in one of those words. */
  lemma WordIndexBound(k: nat, j: nat, w: nat, n: nat)
    requires k * w + j < n * w
    ensures k < n
  {
    if k >= n {
      MulMono(n, k, w);
    }
  }

  lemma {:induction false} MulMono(a: nat, b: nat, w: nat)
    requires a <= b
    ensures a * w <= b * w
    decreases b - a
  {
    if a < b {
      MulMono(a, b - 1, w);
      assert b * w == (b - 1) * w + w;
    }
  }

  /**
   * Writing the 8-byte length field over the last bytes of a block of
   * `tail` followed by `gap` zeros leaves `tail`, `gap - 8` zeros and the field.
   */
  lemma OverwriteLast(tail: seq<byte>, gap: nat, filled: seq<byte>, block: seq<byte>, field: seq<byte>)
    requires gap >= 8 && |field| == 8 && filled == tail + Zeros(gap)
    requires block == filled[..|tail| + gap - 8] + field
    ensures block == tail + Zeros(gap - 8) + field
  {
    assert filled[..|tail| + gap - 8] == tail + Zeros(gap - 8);
  }

  /**
   * The log after finalisation is the log before it followed by
   * `FinalBlocks`, whether or not an extra zero-filled block (taking the
   * log from `c0` to `c1`) came first.
   */
  lemma FinalBlocksAssembled(md: HashParams, c0: seq<byte>, pending: seq<byte>, c1: seq<byte>,
                             tail: seq<byte>, gap: nat, c2: seq<byte>, bitCount: nat)
    requires ValidParams(md) && |pending| <= md.blockBytes && gap >= 8
    requires var free := md.blockBytes - |pending|;
      if free < md.ctrBytes
      then c1 == c0 + (pending + Zeros(free)) && tail == [] && gap == md.blockBytes
      else c1 == c0 && tail == pending && gap == free
    requires c2 == c1 + (tail + Zeros(gap - 8) + LengthField(md, bitCount))
    ensures c2 == c0 + FinalBlocks(md, pending, bitCount)
  {
    var free := md.blockBytes - |pending|;
    if free < md.ctrBytes {
      assert tail + Zeros(gap - 8) == Zeros(md.blockBytes - 8);
      assert c2 == c0 + (pending + Zeros(free)) + (Zeros(md.blockBytes - 8) + LengthField(md, bitCount));
    }
  }

  lemma Prefixes(s: seq<byte>, i: nat, j: nat)
    requires i <= j <= |s|
    ensures s[..i] + s[i..j] == s[..j]
  {
  }

  /**
   * Log bookkeeping: if `c1` extends `c0` by `fed` and `c2` extends `c1`
   * by what, followed by `held`, makes `more`, then `c2` extends `c0` by
   * what, followed by `held`, makes `fed + more`.
   */
  lemma Extend(c0: seq<byte>, c1: seq<byte>, c2: seq<byte>, fed: seq<byte>, held: seq<byte>, more: seq<byte>)
    requires c0 <= c1 && c1[|c0|..] == fed
    requires c1 <= c2 && c2[|c1|..] + held == more
    ensures c0 <= c2 && c2[|c0|..] + held == fed + more
  {
    assert c2[|c0|..] == fed + c2[|c1|..];
  }

  lemma Regroup(a: seq<byte>, b: seq<byte>, c: seq<byte>, d: seq<byte>, e: seq<byte>)
    requires a + b == c + d
    ensures a + (b + e) == c + (d + e)
  {
    assert a + (b + e) == (a + b) + e;
    assert c + (d + e) == (c + d) + e;
  }

  /** The bytes of all chunks, in order. */
  function Concat(chunks: seq<seq<byte>>): (r: seq<byte>)
  {
    if chunks == [] then [] else Concat(chunks[..|chunks| - 1]) + chunks[|chunks| - 1]
  }

  /**
   * Hashing a message fed in any chunking on a fresh engine gives the
   * digest of the whole message: the result does not depend on where the
   * chunk boundaries fall.
   */
  method HashChunks(md: HashParams, chunks: seq<seq<byte>>) returns (d: seq<byte>)
    requires ValidParams(md)
    ensures d == DigestOf(md, Concat(chunks))
  {
    var engine := new MerkleDamgardHash(md);
    var i := 0;
    while i < |chunks|
      invariant i <= |chunks|
      invariant engine.Valid() && engine.md == md
      invariant fresh(engine.buffer) && fresh(engine.buffer.data)
      invariant engine.Message == Concat(chunks[..i])
    {
      engine.Update(chunks[i]);
      assert chunks[..i + 1][..i] == chunks[..i];
      i := i + 1;
    }
    assert chunks[..i] == chunks;
    var output := new byte[md.outputBytes](_ => 0);
    engine.Final(output);
    d := output[..];
  }

  /**
   * `update(a); update(b)` leaves an engine in the same state as
   * `update(a + b)`: the state after absorbing `a + b`, whichever way it
   * was split.
   */
  method UpdateIsChunkIndependent(md: HashParams, a: seq<byte>, b: seq<byte>)
    returns (split: EngineState, whole: EngineState)
    requires ValidParams(md)
    ensures split == whole == StateAfter(md, a + b)
  {
    var e1 := new MerkleDamgardHash(md);
    e1.Update(a);
    e1.Update(b);
    assert e1.Message == a + b;
    split := e1.Snapshot();
    var e2 := new MerkleDamgardHash(md);
    e2.Update(a + b);
    assert e2.Message == a + b;
    whole := e2.Snapshot();
  }

  /**
   * One engine hashes `m1`, then absorbs `junk`, is cleared, and hashes
   * `m2`: both digests are those of a fresh engine, since `final` and
   * `clear` both return it to its initial state.
   */
  method HashAfterReuse(md: HashParams, m1: seq<byte>, junk: seq<byte>, m2: seq<byte>)
    returns (d1: seq<byte>, d2: seq<byte>)
    requires ValidParams(md)
    ensures d1 == DigestOf(md, m1) && d2 == DigestOf(md, m2)
  {
    var engine := new MerkleDamgardHash(md);
    var output := new byte[md.outputBytes](_ => 0);
    engine.Update(m1);
    assert engine.Message == m1;
    engine.Final(output);
    d1 := output[..md.outputBytes];
    engine.Update(junk);
    engine.Clear();
    engine.Update(m2);
    assert engine.Message == m2;
    engine.Final(output);
    d2 := output[..md.outputBytes];
  }
}
