/** The growing byte buffers of the remote API client (extApi.c): `_appendChunkToBuffer`,
    `_removeChunkFromBuffer`, and the overwriting of fields in place. */
module Buffers {
  import opened Bytes

  const MIN_BUFF_INCR := 500

  class ByteBuffer {
    var data: array<Byte>
    var dataSize: nat

    ghost predicate Valid()
      reads this
    {
      dataSize <= data.Length
    }

    /** What the buffer holds. */
    ghost function Bytes(): (s: seq<Byte>)
      requires Valid()
      reads this, data
      ensures |s| == dataSize
    {
      data[..dataSize]
    }

    constructor (size: nat)
      ensures Valid() && fresh(data) && data.Length == size && Bytes() == []
    {
      data, dataSize := new Byte[size], 0;
    }

    /** Room for `chunkSize` more bytes; the buffer grows by at least 500 bytes if it must grow. */
    method Reserve(chunkSize: nat)
      requires Valid()
      modifies this`data
      ensures Valid() && dataSize + chunkSize <= data.Length && (data == old(data) || fresh(data))
      ensures Bytes() == old(Bytes())
      ensures data.Length == if old(data).Length - dataSize >= chunkSize then old(data).Length
                             else old(data).Length + (if chunkSize - (old(data).Length - dataSize) < 500
                                                      then 500 else chunkSize - (old(data).Length - dataSize))
    {
      if data.Length - dataSize < chunkSize {
        var incr := chunkSize - (data.Length - dataSize);
        if incr < MIN_BUFF_INCR {
          incr := MIN_BUFF_INCR;
        }
        var grown := new Byte[data.Length + incr];
        var i := 0;
        while i < dataSize
          modifies grown
          invariant 0 <= i <= dataSize
          invariant grown[..i] == data[..i]
        {
          grown[i] := data[i];
          i := i + 1;
        }
        data := grown;
      }
    }

    /** `_appendChunkToBuffer` with a chunk. */
    method AppendChunk(chunk: seq<Byte>)
      requires Valid()
      modifies this, data
      ensures Valid() && (data == old(data) || fresh(data))
      ensures Bytes() == old(Bytes()) + chunk
    {
      Reserve(|chunk|);
      ghost var before := Bytes();
      var i := 0;
      while i < |chunk|
        modifies data
        invariant 0 <= i <= |chunk| && Bytes() == before
        invariant data[..dataSize + i] == before + chunk[..i]
      {
        data[dataSize + i] := chunk[i];
        assert data[..dataSize + i + 1] == data[..dataSize + i] + [chunk[i]];
        i := i + 1;
      }
      dataSize := dataSize + |chunk|;
    }

    /** `_appendChunkToBuffer` without a chunk: the new bytes hold anything. */
    method AppendSpace(chunkSize: nat)
      requires Valid()
      modifies this
      ensures Valid() && (data == old(data) || fresh(data))
      ensures dataSize == old(dataSize) + chunkSize && Bytes()[..old(dataSize)] == old(Bytes())
    {
      Reserve(chunkSize);
      dataSize := dataSize + chunkSize;
    }

    /** `_removeChunkFromBuffer`: the bytes behind the chunk move up. */
    method RemoveChunk(off: nat, chunkSize: nat)
      requires Valid() && off + chunkSize <= dataSize
      modifies this`dataSize, data
      ensures Valid() && Bytes() == old(Bytes()[..off] + Bytes()[off + chunkSize..])
    {
      ghost var before := data[..];
      var l := dataSize - off - chunkSize;
      var i := 0;
      while i < l
        modifies data
        invariant 0 <= i <= l
        invariant data[..off] == before[..off] && data[off + i..] == before[off + i..]
        invariant data[off..off + i] == before[off + chunkSize..off + chunkSize + i]
      {
        assert data[off + chunkSize + i] == data[off + i..][chunkSize] == before[off + chunkSize + i];
        data[off + i] := data[off + chunkSize + i];
        assert data[off + i + 1..] == before[off + i..][1..];
        i := i + 1;
      }
      dataSize := dataSize - chunkSize;
    }

    /** Bytes copied over the buffer in place. */
    method Overwrite(off: nat, w: seq<Byte>)
      requires Valid() && off + |w| <= dataSize
      modifies data
      ensures Bytes() == Overwritten(old(Bytes()), off, w)
    {
      var i := 0;
      while i < |w|
        invariant 0 <= i <= |w|
        invariant forall j :: 0 <= j < dataSize ==> data[j] == if off <= j < off + i then w[j - off] else old(data[j])
      {
        data[off + i] := w[i];
        i := i + 1;
      }
    }

    method GetWord(off: nat) returns (v: nat)
      requires Valid() && off + 4 <= dataSize
      ensures v == WordAt(Bytes(), off)
    {
      v := WordAt(data[..dataSize], off);
    }

    method Slice(from: nat, to: nat) returns (s: seq<Byte>)
      requires Valid() && from <= to <= dataSize
      ensures s == Bytes()[from..to]
    {
      s := data[from..to];
    }
  }
}
