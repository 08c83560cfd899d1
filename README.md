# Merkle-Damgard streaming engine

A Dafny model of Botan's generic Merkle-Damgard hash engine,
`MerkleDamgard_Hash<MD>` (`src/lib/hash/mdx_hash/mdx_hash.h`). The engine
turns a fixed-block compression function into an incremental hash. MD4, MD5,
RIPEMD-160, SHA-1, SHA-224/256 and SHA-384/512 are built on it.

- `update` pushes input of any length through a one-block alignment buffer,
  hands only whole blocks to `compress_n`, and counts input bytes in a
  wrapping 64-bit counter.
- `final` does the padding of FIPS 180-4 section 5.1 and RFC 1321 sections
  3.1 and 3.2, with a 64-bit bit count:
  - it appends the marker byte, `0x80` or `0x01`;
  - if the length field no longer fits in the current block, it compresses
    an extra zero-filled block;
  - it writes the bit count into the last 8 bytes of the final block;
  - it serialises the digest word by word, then resets.
- `clear` puts the engine back in its initial state.

The model is imperative, like the source:

- `MerkleDamgard.MerkleDamgardHash` is a class with the fields `digest`,
  `count` and `buffer`.
- `Alignment.AlignmentBuffer` is a class over a `blockBytes`-long `array`
  with a fill cursor.
- `update` and the digest copy-out are `while` loops with invariants.

The hash algorithm itself is a parameter. `MDParams.HashParams` holds:

- the layout constants;
- the initial digest (`MD::init`);
- a one-block compression function (`compress`);
- the digest word width.

`compress_n` is that function folded over consecutive blocks
(`MDParams.CompressAll`).

Two ghost fields record what happened since the last `clear`:

- `Message`: the bytes absorbed;
- `Compressed`: the bytes handed to the compression function.

The object invariant `Valid()` ties the real state to them:

- the compressed bytes, followed by the buffered bytes, are the message;
- the buffer is never full between calls;
- `count` is the message length modulo 2^64;
- the digest is the compression of `Compressed`.

The independent reference is `MDParams.Padded`: the padding of the
standards with the bit count truncated to 64 bits and stored in the last 8
bytes of the length field. `MDParams.DigestOf(md, m)` compresses it, serialises
it and truncates it. The main result is `MerkleDamgardHash.Final`: it writes
`DigestOf(md, Message)`, however the message was split across `update`
calls.

Files:

- `byte_order.dfy`: bytes, `store_be` and `store_le`, and their round trips.
- `md_params.dfy`: the parameters and the concept's constraints, the
  reference padding, and lemmas about padding and compression.
- `alignment_buffer.dfy`: the alignment buffer.
- `mdx_hash.dfy`: the engine class and the whole-engine properties.

`alignment_buffer.h` is not part of this model. `AlignmentBuffer` models
exactly the calls `mdx_hash.h` makes on it, and its behaviour is
reconstructed from those calls:

- `handle_unaligned_data` takes nothing when the buffer is empty and at
  least one whole block of input remains. Otherwise it copies as much as
  fits and returns the block once it is full.
- `aligned_data_to_process` does not change the buffer. It returns the
  longest run of whole blocks and advances the cursor past it. A shorter
  tail is picked up by `handle_unaligned_data` on the next turn of the
  `update` loop.

The `update` loop in `mdx_hash.h` calls `handle_unaligned_data` again as
long as input remains, so the tail after the last whole block ends up in the
buffer. Every input byte is compressed or buffered exactly once, and
`Update`'s contract states that outcome.

## Model

| member | source | states |
|---|---|---|
| MDParams.FinalBlocksShape | src/lib/hash/mdx_hash/mdx_hash.h:36-37 | Because `ctr_bytes < block_bytes` and `ctr_bytes >= 8`, finalisation compresses exactly one or two blocks. They start with the pending bytes, are zero up to the last 8 bytes, and end in the length field. When there are two, the second is zeros followed by the length field. |
| MDParams.CompressAllLength | src/lib/hash/mdx_hash/mdx_hash.h:27-30 | Compressing any whole number of blocks keeps the size of the digest container (`digest_type` is a fixed-size container). |
| MDParams.CompressAllAppend | src/lib/hash/mdx_hash/mdx_hash.h:47-58 | Compressing `a` and then `b` is compressing `a + b`. It does not matter whether blocks go to `compress_n` one at a time (line 49) or in bulk (line 55). |
| MDParams.SplitBlocks | src/lib/hash/mdx_hash/mdx_hash.h:47-58 | A message is its whole blocks followed by a remainder shorter than one block. |
| MDParams.SplitUnique | src/lib/hash/mdx_hash/mdx_hash.h:47-58 | Whole blocks followed by less than one block is a unique decomposition. Whatever the engine has compressed and buffered is therefore exactly the message's whole blocks and its remainder. |
| MDParams.AddWraps | src/lib/hash/mdx_hash/mdx_hash.h:60 | Adding to a counter kept modulo 2^64 is addition modulo 2^64 of the totals. |
| MDParams.BitCountWraps | src/lib/hash/mdx_hash/mdx_hash.h:100 | `m_count * 8` on the wrapped byte counter equals the true bit length modulo 2^64. |
| MDParams.PaddedLength | src/lib/hash/mdx_hash/mdx_hash.h:88-111 | The reference padded message is a whole number of blocks. Its length is the least multiple of the block size that holds the message, the marker and `ctr_bytes` counter bytes. It starts with the message, then the marker, and its last 8 bytes are the length field. |
| MDParams.PadZerosSpec | src/lib/hash/mdx_hash/mdx_hash.h:91-98 | The padding to the next block boundary is less than one block and reaches a multiple of the block size. |
| MDParams.PadZerosAfterRemainder | src/lib/hash/mdx_hash/mdx_hash.h:91-98 | The standard's zero count equals two cases. If `ctr_bytes` do not fit behind the marker, it is the free bytes of this block plus a whole extra block, less the counter. Otherwise it is the free bytes of this block less the counter. |
| MDParams.ZerosToBoundary | src/lib/hash/mdx_hash/mdx_hash.h:91-98 | The same case split, as arithmetic on the block size, counter width and message length. |
| MDParams.FinalBlocksArePadding | src/lib/hash/mdx_hash/mdx_hash.h:88-111 | The message's whole blocks, followed by what finalisation builds from the remainder, the marker and the wrapped counter, are exactly `Padded`, the standards' padding with the bit count truncated to 64 bits. |
| MDParams.PaddingInjective | src/lib/hash/mdx_hash/mdx_hash.h:77-86 | For messages of any length, equal padded forms mean equal messages. The marker appended right after the message fixes where it ends. |
| MDParams.MarkerMeetsZero | src/lib/hash/mdx_hash/mdx_hash.h:77-98 | A shorter message's padding differs from a longer one's. Padded forms of different length differ; when the lengths are equal, the shorter one's padding holds a zero byte where the longer message's marker sits. |
| MDParams.DigestBytes | src/lib/hash/mdx_hash/mdx_hash.h:113-121 | The serialised, truncated digest is exactly `output_bytes` long. |
| MDParams.DigestOf | src/lib/hash/mdx_hash/mdx_hash.h:63-68 | The reference digest of a message is `output_bytes` long. |
| MDParams.SerializeLength | src/lib/hash/mdx_hash/mdx_hash.h:116-120 | Per-word serialisation gives `wordBytes` bytes per digest word. |
| MDParams.SerializeAt | src/lib/hash/mdx_hash/mdx_hash.h:116-120 | Byte `j` of word `k` lands at offset `k * wordBytes + j` of the serialised digest, stored in the hash's byte order. |
| ByteOrder.StoreBE | src/lib/hash/mdx_hash/mdx_hash.h:103-104 | `store_be` of a value into `n` bytes gives `n` bytes. |
| ByteOrder.StoreLE | src/lib/hash/mdx_hash/mdx_hash.h:105-106 | `store_le` of a value into `n` bytes gives `n` bytes. |
| ByteOrder.LoadStoreBE | src/lib/hash/mdx_hash/mdx_hash.h:103-104 | Reading back a big-endian store of `x` into `n` bytes gives `x mod 256^n`: exactly the low `n` bytes are kept. |
| ByteOrder.LoadStoreLE | src/lib/hash/mdx_hash/mdx_hash.h:105-106 | Reading back a little-endian store of `x` into `n` bytes gives `x mod 256^n`. |
| ByteOrder.LoadStore | src/lib/hash/mdx_hash/mdx_hash.h:103-107 | The same round trip for either byte order. |
| ByteOrder.StoreLoadBE | src/lib/hash/mdx_hash/mdx_hash.h:103-104 | Every byte string is the big-endian store of the number it denotes, so `store_be` reaches every pattern. |
| ByteOrder.StoreLoadLE | src/lib/hash/mdx_hash/mdx_hash.h:105-106 | Every byte string is the little-endian store of the number it denotes. |
| ByteOrder.LoadBEBound | src/lib/hash/mdx_hash/mdx_hash.h:103-104 | An `n`-byte big-endian string denotes a number below 256^n. |
| ByteOrder.LoadLEBound | src/lib/hash/mdx_hash/mdx_hash.h:105-106 | An `n`-byte little-endian string denotes a number below 256^n. |
| ByteOrder.StoreLEIsReversedBE | src/lib/hash/mdx_hash/mdx_hash.h:103-107 | The little-endian counter is the big-endian counter with its bytes reversed. |
| MDParams.LengthFieldValue | src/lib/hash/mdx_hash/mdx_hash.h:101-107 | Read back in the hash's byte order, the 8-byte length field denotes the bit count modulo 2^64, so exactly the `uint64_t` value of `bit_count` is stored. |
| Alignment.AlignmentBuffer.constructor | src/lib/hash/mdx_hash/mdx_hash.h:127 | A fresh buffer of `block_bytes` bytes holds no data. |
| Alignment.AlignmentBuffer.Clear | src/lib/hash/mdx_hash/mdx_hash.h:72 | Clearing empties the buffer and zeroes the block. |
| Alignment.AlignmentBuffer.ElementsUntilAlignment | src/lib/hash/mdx_hash/mdx_hash.h:91 | The result is one block minus the number of bytes buffered, and it is zero exactly when the buffer is full. |
| Alignment.AlignmentBuffer.InAlignment | src/lib/hash/mdx_hash/mdx_hash.h:52 | True exactly when the buffer holds no bytes. |
| Alignment.AlignmentBuffer.ReadyToConsume | src/lib/hash/mdx_hash/mdx_hash.h:78 | True exactly when the buffer holds a whole block. |
| Alignment.AlignmentBuffer.Append | src/lib/hash/mdx_hash/mdx_hash.h:81 | Appending bytes that fit leaves the buffered bytes followed by the new ones. |
| Alignment.AlignmentBuffer.FillUpWithZeros | src/lib/hash/mdx_hash/mdx_hash.h:92 | The buffer becomes full: its old contents followed by as many zeros as were free. |
| Alignment.AlignmentBuffer.DirectlyModifyLast | src/lib/hash/mdx_hash/mdx_hash.h:102-107 | The block becomes its first `block_bytes - n` bytes followed by the `n` new bytes. |
| Alignment.AlignmentBuffer.Consume | src/lib/hash/mdx_hash/mdx_hash.h:110 | A full buffer hands out its whole block and becomes empty. |
| Alignment.AlignmentBuffer.HandleUnalignedData | src/lib/hash/mdx_hash/mdx_hash.h:48 | With an empty buffer and at least a block of input, it takes nothing. Otherwise it takes as much input as fits. It returns the completed block when the buffer fills, and otherwise keeps the bytes buffered with room to spare. |
| Alignment.AlignmentBuffer.AlignedDataToProcess | src/lib/hash/mdx_hash/mdx_hash.h:53 | It returns the input's longest run of whole blocks, counts them, and advances the cursor past them. Less than one block remains after the cursor. |
| MerkleDamgard.MerkleDamgardHash.constructor | src/lib/hash/mdx_hash/mdx_hash.h:42 | A new engine holds the initial digest, an empty buffer, a zero counter and an empty message. |
| MerkleDamgard.MerkleDamgardHash.StateOfMessage | src/lib/hash/mdx_hash/mdx_hash.h:124-127 | Between calls, the three fields are a function of the message alone. The compressed bytes are its whole blocks, the buffer holds its remainder, and the digest compresses the whole blocks. |
| MerkleDamgard.MerkleDamgardHash.Snapshot | src/lib/hash/mdx_hash/mdx_hash.h:124-127 | The engine's digest, counter and buffered bytes are the state reached by absorbing its message. |
| MerkleDamgard.MerkleDamgardHash.Clear | src/lib/hash/mdx_hash/mdx_hash.h:70-74 | It re-initialises the digest, empties the buffer and zeroes the counter, giving the state of a new engine. |
| MerkleDamgard.MerkleDamgardHash.CompressN | src/lib/hash/mdx_hash/mdx_hash.h:54-55 | Compressing whole blocks extends the compressed log by exactly those bytes and keeps the digest consistent with it. |
| MerkleDamgard.MerkleDamgardHash.Update | src/lib/hash/mdx_hash/mdx_hash.h:44-61 | The loop consumes all the input and ends with less than one block buffered. The bytes newly compressed, followed by the buffer, are the bytes buffered before followed by the input: nothing is dropped, repeated or reordered. The counter grows by the input length modulo 2^64. |
| MerkleDamgard.MerkleDamgardHash.Absorb | src/lib/hash/mdx_hash/mdx_hash.h:47-58 | One turn of the loop makes progress. The bytes it compresses, followed by the buffer, are the old buffer followed by the input it consumed. |
| MerkleDamgard.MerkleDamgardHash.AppendPaddingBit | src/lib/hash/mdx_hash/mdx_hash.h:77-86 | The buffer is not full, as the source's assertion requires. Exactly one byte is appended: `0x80` for big bit order, `0x01` otherwise. |
| MerkleDamgard.MerkleDamgardHash.AppendCounterAndFinalize | src/lib/hash/mdx_hash/mdx_hash.h:88-111 | The bytes compressed are exactly `FinalBlocks`: the pending bytes, zeros, an extra block when fewer than `ctr_bytes` bytes were free, and `count * 8 mod 2^64` in the last 8 bytes. The buffer ends empty. |
| MerkleDamgard.FinalBlocksAssembled | src/lib/hash/mdx_hash/mdx_hash.h:88-111 | With or without the extra zero-filled block, the bytes compressed during finalisation add up to `FinalBlocks` of the pending bytes. |
| MerkleDamgard.MerkleDamgardHash.CompressLastBlock | src/lib/hash/mdx_hash/mdx_hash.h:97-110 | The last block is the buffered bytes, zeros, and the bit count in the hash's byte order over the final 8 bytes. |
| MerkleDamgard.MerkleDamgardHash.CopyOutput | src/lib/hash/mdx_hash/mdx_hash.h:113-121 | The first `output_bytes` bytes of the output are the word-wise serialised digest. Later output bytes are untouched. |
| MerkleDamgard.CopyOutVec | src/lib/hash/mdx_hash/mdx_hash.h:116-120 | The first `n` bytes written are the first `n` bytes of the per-word serialisation. Nothing beyond them changes. |
| MerkleDamgard.MerkleDamgardHash.Final | src/lib/hash/mdx_hash/mdx_hash.h:63-68 | The output receives `DigestOf(md, Message)`, the digest of `Padded` applied to everything absorbed since the last clear. The engine is then back in its initial state. |
| MerkleDamgard.UpdateIsChunkIndependent | src/lib/hash/mdx_hash/mdx_hash.h:44-61 | `update(a); update(b)` and `update(a + b)` leave engines in the same state, the one determined by `a + b`. |
| MerkleDamgard.HashChunks | src/lib/hash/mdx_hash/mdx_hash.h:44-68 | Feeding a message to a new engine in any chunking, then calling `final`, gives the digest of the concatenated message. |
| MerkleDamgard.HashAfterReuse | src/lib/hash/mdx_hash/mdx_hash.h:63-74 | After `final`, and after `clear`, a reused engine hashes the next message as a new one would. |

## Left out

- The legacy `MDx_HashFunction` class (`mdx_hash.h:133-174`) is only declared, with no bodies, so there is nothing to model.
- `src/cli/timer.cpp` is benchmarking instrumentation: clocks, floating-point throughput and string formatting. It has no functional contract.
- The concrete compression functions and `MD::init` are parameters (`compress`, `init`). Only two facts are assumed about them: compression is deterministic, and it keeps the digest size.
- `MD::compress_n` is modelled as the one-block compression applied to each block in turn, which is how the concrete hashes define it.
- `alignment_buffer.h` is not part of this model. Its behaviour is reconstructed from its use in `mdx_hash.h`, as described above.
- Alignment.AlignmentBuffer.DirectlyModifyLast takes the bytes to write, instead of returning a writable view that `store_be` / `store_le` then fill. The effect on the block is the same.
- `BufferSlicer` is modelled as the input sequence plus the index of its first unread byte.
- Secure wiping of `secure_vector` storage is not modelled. Neither are the exception and abort behaviour of `BOTAN_ASSERT_NOMSG`: each assertion is either proved (`AppendPaddingBit`, and the counter-fits check in `AppendCounterAndFinalize`) or made a precondition (`CopyOutput`).
- MerkleDamgard.MerkleDamgardHash.Final requires `output_bytes` bytes of output up front. The source checks this only in `copy_output`, after padding and compressing. A short buffer there aborts and leaves the engine half-finalised, and that path is not modelled.
- MDParams.ValidParams also requires two things the concept leaves implicit but the engine relies on: the digest holds at least `output_bytes` bytes, and compression keeps the digest size.
- MDParams.Padded matches FIPS 180-4 section 5.1.2 only for messages shorter than 2^61 bytes when `ctr_bytes` is 16 (SHA-384/512). The standard writes the full 128-bit bit length. The engine, like the model, writes `m_count * 8` modulo 2^64 into the last 8 bytes and leaves the upper 8 counter bytes zero.
- C++ concept and template machinery beyond the numeric constraints are not modelled.
