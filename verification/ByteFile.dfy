/** The part of the POSIX file interface that the chunk store uses: one open file with
    its seek position.  Reads stop at end of file; writes are complete. */
module ByteFile {
  import opened Bytes

  class File {
    var bytes: seq<Byte>
    var pos: nat

    /** Opening with O_TRUNC. */
    constructor ()
      ensures bytes == [] && pos == 0
    {
      bytes, pos := [], 0;
    }

    /** A negative offset fails and leaves the position where it was. */
    method Lseek(offset: int) returns (at: int)
      modifies this`pos
      ensures offset < 0 ==> at == -1 && pos == old(pos)
      ensures 0 <= offset ==> at == pos == offset
    {
      if offset < 0 {
        return -1;
      }
      pos := offset;
      at := offset;
    }

    method Read(buffer: array<Byte>, n: nat) returns (rc: nat)
      requires n <= buffer.Length
      modifies this`pos, buffer
      ensures rc == Min(n, Max(|bytes| - old(pos), 0))
      ensures pos == old(pos) + rc
      ensures rc > 0 ==> buffer[..rc] == bytes[old(pos)..old(pos) + rc]
    {
      rc := Min(n, Max(|bytes| - pos, 0));
      var i := 0;
      while i < rc
        invariant i <= rc && pos == old(pos) && bytes == old(bytes)
        invariant forall k :: 0 <= k < i ==> buffer[k] == bytes[pos + k]
      {
        buffer[i] := bytes[pos + i];
        i := i + 1;
      }
      pos := pos + rc;
    }

    method Write(data: seq<Byte>) returns (rc: nat)
      modifies this
      ensures rc == |data|
      ensures bytes == Overwrite(old(bytes), old(pos), data)
      ensures pos == old(pos) + |data|
    {
      bytes := Overwrite(bytes, pos, data);
      pos := pos + |data|;
      rc := |data|;
    }

    method Ftruncate(n: nat)
      modifies this`bytes
      ensures bytes == Resize(old(bytes), n)
    {
      bytes := Resize(bytes, n);
    }
  }
}
