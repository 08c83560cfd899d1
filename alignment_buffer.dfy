/**
 * The alignment buffer the Merkle-Damgard engine keeps between `update`
 * calls (`AlignmentBuffer<uint8_t, block_bytes>`): one block of bytes and a
 * cursor saying how many of them hold not-yet-compressed data. It hands
 * out only whole blocks, and during finalisation it is zero-filled and
 * has the length counter written into its last bytes.
 *
 * The input cursor the engine advances (`BufferSlicer`) is modelled as the
 * input sequence together with the index of its first unread byte.
 */
module Alignment {
  import opened ByteOrder

  datatype Option<T> = None | Some(value: T)

  function Min(a: nat, b: nat): (r: nat)
  {
    if a <= b then a else b
  }

  class AlignmentBuffer {
    const blockBytes: nat
    const data: array<byte>
    var position: nat

    ghost predicate Valid()
      reads this
    {
      0 < blockBytes && data.Length == blockBytes && position <= blockBytes
    }

    /** The bytes appended since the buffer was last consumed or cleared. */
    ghost function Contents(): seq<byte>
      reads this, data
      requires Valid()
    {
      data[..position]
    }

    constructor (blockBytes: nat)
      requires blockBytes > 0
      ensures Valid() && fresh(data) && this.blockBytes == blockBytes && Contents() == []
    {
      this.blockBytes := blockBytes;
      data := new byte[blockBytes](_ => 0);
      position := 0;
    }

    /** Forgets the buffered bytes and wipes the block. */
    method Clear()
      requires Valid()
      modifies this, data
      ensures Valid() && Contents() == [] && data[..] == Zeros(blockBytes)
    {
      forall i | 0 <= i < data.Length {
        data[i] := 0;
      }
      position := 0;
    }

    /** Bytes still missing from a whole block. */
    function ElementsUntilAlignment(): (r: nat)
      reads this, data
      requires Valid()
      ensures r == blockBytes - |Contents()|
      ensures r == 0 <==> ReadyToConsume()
    {
      blockBytes - position
    }

    /** The buffer is empty. */
    predicate InAlignment()
      reads this, data
      requires Valid()
      ensures InAlignment() <==> Contents() == []
    {
      position == 0
    }

    /** The buffer holds a whole block. */
    predicate ReadyToConsume()
      reads this, data
      requires Valid()
      ensures ReadyToConsume() <==> |Contents()| == blockBytes
    {
      position == blockBytes
    }

    /** Copies `elements` behind the buffered bytes; they must fit. */
    method Append(elements: seq<byte>)
      requires Valid() && |elements| <= ElementsUntilAlignment()
      modifies this, data
      ensures Valid() && position == old(position) + |elements|
      ensures Contents() == old(Contents()) + elements
    {
      var i := 0;
      while i < |elements|
        invariant 0 <= i <= |elements|
        invariant Valid() && position == old(position)
        invariant data[..position] == old(data[..position])
        invariant data[position..position + i] == elements[..i]
        invariant data[position + i..] == old(data[position + i..])
      {
        data[position + i] := elements[i];
        i := i + 1;
      }
      position := position + |elements|;
    }

    /** Pads the rest of the block with zero bytes, which then count as buffered. */
    method FillUpWithZeros()
      requires Valid()
      modifies this, data
      ensures Valid() && ReadyToConsume()
      ensures Contents() == old(Contents()) + Zeros(old(ElementsUntilAlignment()))
    {
      if !ReadyToConsume() {
        forall i | position <= i < blockBytes {
          data[i] := 0;
        }
        position := blockBytes;
      }
    }

    /** Overwrites the last `|bytes|` bytes of the block with `bytes`. */
    method DirectlyModifyLast(bytes: seq<byte>)
      requires Valid() && |bytes| <= blockBytes
      modifies data
      ensures data[..] == old(data[..blockBytes - |bytes|]) + bytes
    {
      forall i | 0 <= i < |bytes| {
        data[blockBytes - |bytes| + i] := bytes[i];
      }
    }

    /** Hands out the full block and empties the buffer. */
    method Consume() returns (block: seq<byte>)
      requires Valid() && ReadyToConsume()
      modifies this
      ensures Valid() && InAlignment() && Contents() == []
      ensures block == old(Contents()) && |block| == blockBytes
    {
      position := 0;
      block := data[..];
    }

    /**
     * Tops the buffer up from `input[cursor..]` and returns the block once
     * it is full. When the buffer is empty and the input still holds a
     * whole block it takes nothing, leaving that input to the aligned path.
     */
    method HandleUnalignedData(input: seq<byte>, cursor: nat) returns (oneBlock: Option<seq<byte>>, next: nat)
      requires Valid() && cursor <= |input|
      modifies this, data
      ensures Valid() && cursor <= next <= |input|
      ensures if old(position) == 0 && |input| - cursor >= blockBytes
              then next == cursor && oneBlock == None && position == 0
              else next == cursor + Min(blockBytes - old(position), |input| - cursor)
      ensures oneBlock.Some? ==>
                oneBlock.value == old(Contents()) + input[cursor..next] &&
                |oneBlock.value| == blockBytes && Contents() == []
      ensures oneBlock.None? ==>
                Contents() == old(Contents()) + input[cursor..next] && position < blockBytes
    {
      if InAlignment() && |input| - cursor >= blockBytes {
        return None, cursor;
      }
      var take := Min(ElementsUntilAlignment(), |input| - cursor);
      Append(input[cursor..cursor + take]);
      next := cursor + take;
      if ReadyToConsume() {
        var block := Consume();
        oneBlock := Some(block);
      } else {
        oneBlock := None;
      }
    }

    /**
     * With the buffer empty, the longest run of whole blocks at the front
     * of `input[cursor..]`, how many blocks it holds, and the cursor
     * behind it; less than one block of input is left after it.
     */
    method AlignedDataToProcess(input: seq<byte>, cursor: nat) returns (aligned: seq<byte>, fullBlocks: nat, next: nat)
      requires Valid() && InAlignment() && cursor <= |input|
      ensures cursor <= next <= |input| && aligned == input[cursor..next]
      ensures |aligned| == fullBlocks * blockBytes
      ensures |input| - next < blockBytes
    {
      fullBlocks := (|input| - cursor) / blockBytes;
      next := cursor + fullBlocks * blockBytes;
      aligned := input[cursor..next];
    }
  }
}
