/**
 The ring cache for the source window of the patcher (`src_cache_t`). A new window re-uses the
 bytes it shares with the last one by turning the ring, and reads only what is missing.
 */
module SrcCache {
  import opened Bytes

  /** A readable stream: the old data, or the output, which can only grow. */
  class Stream {
    var data: seq<byte>

    constructor (data: seq<byte>)
      ensures this.data == data
    {
      this.data := data;
    }

    method Append(more: seq<byte>)
      modifies this
      ensures data == old(data) + more
    {
      data := data + more;
    }
  }

  /** Where the byte at window position `k` is in a ring of `size` bytes that starts at `offset`;
      an offset of `size` means the same as 0. */
  function Slot(offset: nat, k: nat, size: nat): (s: nat)
    requires offset <= size && k < size
    ensures s < size
  {
    if offset + k < size then offset + k else offset + k - size
  }

  /** The new offset when window position `movePos` becomes window position `dstPos`. */
  function Turned(offset: nat, dstPos: nat, movePos: nat, size: nat): int {
    var noff := offset + size + movePos - dstPos;
    if noff <= size then noff
    else if noff - size <= size then noff - size
    else noff - 2 * size
  }

  /** Turning keeps the offset in the ring, and every byte where it is. */
  lemma TurnKeepsBytes(offset: nat, dstPos: nat, movePos: nat, size: nat, j: nat)
    requires offset <= size && dstPos < size && movePos < size
    ensures 0 <= Turned(offset, dstPos, movePos, size) <= size
    ensures dstPos + j < size && movePos + j < size ==>
              Slot(Turned(offset, dstPos, movePos, size), dstPos + j, size) == Slot(offset, movePos + j, size)
  {
  }

  class Cache {
    const mem: array<byte>
    var memOffset: nat
    var srcPosBck: nat
    var srcLenBck: nat
    var srcDataBck: Stream?

    /** The window in the ring is the one last asked for, byte by byte. */
    ghost predicate Holds(data: seq<byte>, srcPos: nat, srcLen: nat)
      reads this, mem
    {
      && memOffset <= mem.Length && srcLen <= mem.Length && srcPos + srcLen <= |data|
      && forall k :: 0 <= k < srcLen ==> mem[Slot(memOffset, k, mem.Length)] == data[srcPos + k]
    }

    ghost predicate Valid()
      reads this, mem, srcDataBck
    {
      && memOffset <= mem.Length
      && (srcDataBck != null ==> Holds(srcDataBck.data, srcPosBck, srcLenBck))
    }

    constructor (memSize: nat)
      ensures Valid() && fresh(mem) && mem.Length == memSize && srcDataBck == null
    {
      mem := new byte[memSize](_ => 0);
      memOffset := 0;
      srcPosBck, srcLenBck := 0, 0;
      srcDataBck := null;
    }

    /** A stream that grows does not change what the cache stands for. */
    lemma HoldsWhenGrown(data: seq<byte>, more: seq<byte>, srcPos: nat, srcLen: nat)
      requires Holds(data, srcPos, srcLen)
      ensures Holds(data + more, srcPos, srcLen)
    {
    }

    /** `_src_cache_move_by_offset`. */
    method MoveByOffset(dstPos: nat, movePos: nat)
      requires memOffset <= mem.Length && dstPos < mem.Length && movePos < mem.Length
      modifies this`memOffset
      ensures memOffset <= mem.Length
      ensures forall k :: dstPos <= k < mem.Length && movePos + (k - dstPos) < mem.Length ==>
                Slot(memOffset, k, mem.Length) == Slot(old(memOffset), movePos + (k - dstPos), mem.Length)
    {
      var noff := memOffset + mem.Length + movePos - dstPos;
      if noff > mem.Length {
        noff := noff - mem.Length;
        if noff > mem.Length {
          noff := noff - mem.Length;
        }
      }
      assert noff == Turned(memOffset, dstPos, movePos, mem.Length);
      forall k | dstPos <= k < mem.Length && movePos + (k - dstPos) < mem.Length
        ensures Slot(noff, k, mem.Length) == Slot(memOffset, movePos + (k - dstPos), mem.Length)
      {
        TurnKeepsBytes(memOffset, dstPos, movePos, mem.Length, k - dstPos);
      }
      memOffset := noff;
    }

    /** Reads a run of the stream into consecutive bytes of the ring's memory. */
    method ReadInto(data: seq<byte>, from: nat, at: nat, n: nat)
      requires from + n <= |data| && at + n <= mem.Length
      modifies mem
      ensures forall i :: 0 <= i < mem.Length ==>
                mem[i] == if at <= i < at + n then data[from + (i - at)] else old(mem[i])
    {
      forall i | at <= i < at + n {
        mem[i] := data[from + (i - at)];
      }
    }

    /** `_src_cache_update_by_offset`: fills window positions `dst` to `dst + updateLen` and leaves
        the others alone. */
    method UpdateByOffset(src: Stream, srcPos: nat, dst: nat, updateLen: nat)
      requires memOffset <= mem.Length && dst + updateLen <= mem.Length && 0 < updateLen
      requires srcPos + dst + updateLen <= |src.data|
      modifies mem
      ensures forall k :: dst <= k < dst + updateLen ==>
                mem[Slot(memOffset, k, mem.Length)] == src.data[srcPos + k]
      ensures forall k :: 0 <= k < mem.Length && !(dst <= k < dst + updateLen) ==>
                mem[Slot(memOffset, k, mem.Length)] == old(mem[Slot(memOffset, k, mem.Length)])
    {
      var from := srcPos + dst;
      var dstPos := dst + memOffset;
      var left := updateLen;
      if dstPos < mem.Length {
        var readLen := left;
        if dstPos + readLen > mem.Length {
          readLen := mem.Length - dstPos;
        }
        ReadInto(src.data, from, dstPos, readLen);
        from := from + readLen;
        dstPos := dstPos + readLen;
        left := left - readLen;
        if left == 0 {
          return;
        }
      }
      dstPos := dstPos - mem.Length;
      ReadInto(src.data, from, dstPos, left);
    }

    /** `src_cache_update`: afterwards the cache stands for the window asked for, whatever it stood
        for before: the same, an overlapping or another window of this or of another stream. */
    method Update(src: Stream, srcLen: nat, srcPos: nat)
      requires Valid() && 0 < srcLen <= mem.Length && srcPos + srcLen <= |src.data|
      modifies this, mem
      ensures Valid() && srcDataBck == src && srcPosBck == srcPos && srcLenBck == srcLen
      ensures Holds(src.data, srcPos, srcLen)
    {
      if srcDataBck != src || srcPosBck + srcLenBck <= srcPos || srcPosBck >= srcPos + srcLen {
        memOffset := 0;
        ReadInto(src.data, srcPos, 0, srcLen);
      } else {
        Reuse(src, srcLen, srcPos);
      }
      srcPosBck := srcPos;
      srcLenBck := srcLen;
      srcDataBck := src;
    }

    /** The branch of `src_cache_update` for a window that overlaps the last one. */
    method Reuse(src: Stream, srcLen: nat, srcPos: nat)
      requires 0 < srcLen <= mem.Length && srcPos + srcLen <= |src.data|
      requires Holds(src.data, srcPosBck, srcLenBck)
      requires srcPos < srcPosBck + srcLenBck && srcPosBck < srcPos + srcLen
      modifies this`memOffset, mem
      ensures Holds(src.data, srcPos, srcLen)
    {
      var dstPos, movePos, moveLen;
      if srcPosBck <= srcPos {
        dstPos := 0;
        movePos := srcPos - srcPosBck;
        moveLen := srcLenBck - movePos;
      } else {
        dstPos := srcPosBck - srcPos;
        movePos := 0;
        moveLen := srcLenBck;
      }
      if dstPos + moveLen >= srcLen {
        moveLen := srcLen - dstPos;
      }
      MoveByOffset(dstPos, movePos);
      assert forall k :: dstPos <= k < dstPos + moveLen ==>
          mem[Slot(memOffset, k, mem.Length)] == src.data[srcPos + k] by {
        forall k | dstPos <= k < dstPos + moveLen
          ensures mem[Slot(memOffset, k, mem.Length)] == src.data[srcPos + k]
        {
          assert Slot(memOffset, k, mem.Length) == Slot(old(memOffset), movePos + (k - dstPos), mem.Length);
        }
      }
      if dstPos > 0 {
        UpdateByOffset(src, srcPos, 0, dstPos);
      }
      dstPos := dstPos + moveLen;
      if dstPos < srcLen {
        UpdateByOffset(src, srcPos, dstPos, srcLen - dstPos);
      }
    }

    /** `_src_cache_read`: reading the cache is reading the stream at the window's position. */
    method Read(readFromPos: nat, n: nat) returns (out: seq<byte>)
      requires Valid() && srcDataBck != null && readFromPos + n <= srcLenBck
      ensures out == srcDataBck.data[srcPosBck + readFromPos..srcPosBck + readFromPos + n]
    {
      ghost var all := srcDataBck.data[srcPosBck + readFromPos..srcPosBck + readFromPos + n];
      var pos := readFromPos + memOffset;
      out := [];
      if pos < mem.Length {
        var readLen := n;
        if pos + readLen > mem.Length {
          readLen := mem.Length - pos;
        }
        out := mem[pos..pos + readLen];
        forall i | 0 <= i < readLen ensures out[i] == all[i] {
          assert out[i] == mem[Slot(memOffset, readFromPos + i, mem.Length)];
        }
        pos := pos + readLen;
        if |out| == n {
          return;
        }
      }
      pos := pos - mem.Length;
      ghost var first := |out|;
      var readLen := n - |out|;
      ghost var second := mem[pos..pos + readLen];
      forall i | 0 <= i < readLen ensures second[i] == all[first + i] {
        assert second[i] == mem[Slot(memOffset, readFromPos + (first + i), mem.Length)];
      }
      out := out + mem[pos..pos + readLen];
    }
  }
}
