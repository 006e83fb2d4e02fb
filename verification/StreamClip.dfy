/**
 The reader of a part of a stream through a cache (`TStreamCacheClip`). Its meaning is the list of
 bytes not read yet; every operation takes bytes from the front of that list.
 */
module StreamClip {
  import opened Bytes
  import opened PackedUInt

  /** The cached bytes from `from` on, moved forward by `n`. */
  ghost predicate Moved(a: seq<byte>, b: seq<byte>, from: nat, n: nat) {
    n <= from <= |a| == |b| && b[from - n..|b| - n] == a[from..]
  }

  /** `data` at the end, and nothing else changed. */
  ghost predicate Filled(a: seq<byte>, b: seq<byte>, data: seq<byte>) {
    |data| <= |a| == |b| && b[..|b| - |data|] == a[..|a| - |data|] && b[|b| - |data|..] == data
  }

  lemma MovedAndFilled(a: seq<byte>, b: seq<byte>, c: seq<byte>, from: nat, n: nat, data: seq<byte>)
    requires Moved(a, b, from, n) && Filled(b, c, data) && |data| == n
    ensures |c| == |a| && c[from - n..] == a[from..] + data
  {
    assert c[from - n..|c| - n] == c[..|c| - n][from - n..] == b[..|b| - n][from - n..] == b[from - n..|b| - n];
    assert c[from - n..] == c[from - n..|c| - n] + c[|c| - n..];
  }

  lemma CutFront(all: seq<byte>, size: nat, used: nat)
    requires used <= size <= |all|
    ensures all[..size][used..] + all[size..] == all[used..]
  {
  }

  class Clip {
    const src: seq<byte>
    /** The bytes from `streamPos` to `streamPosEnd` are not in the cache yet. */
    var streamPos: nat
    const streamPosEnd: nat
    /** Unread bytes are at the end of the cache, from `cacheBegin` on. */
    const cacheBuf: array<byte>
    var cacheBegin: nat

    ghost predicate Valid()
      reads this
    {
      streamPos <= streamPosEnd <= |src| && cacheBegin <= cacheBuf.Length
    }

    /** With a cache for the longest packed integer. */
    ghost predicate CanUnpack()
      reads this
    {
      Valid() && cacheBuf.Length >= MAX_PACKED_BYTES
    }

    ghost function Rest(): (r: seq<byte>)
      reads this, cacheBuf
      requires Valid()
      ensures |r| == (streamPosEnd - streamPos) + (cacheBuf.Length - cacheBegin)
    {
      cacheBuf[..][cacheBegin..] + src[streamPos..streamPosEnd]
    }

    constructor (src: seq<byte>, streamPos: nat, streamPosEnd: nat, cacheSize: nat)
      requires streamPos <= streamPosEnd <= |src|
      ensures Valid() && fresh(cacheBuf) && cacheBuf.Length == cacheSize && Rest() == src[streamPos..streamPosEnd]
    {
      this.src := src;
      this.streamPos := streamPos;
      this.streamPosEnd := streamPosEnd;
      cacheBuf := new byte[cacheSize](_ => 0);
      cacheBegin := cacheSize;
    }

    function LeaveSize(): (n: nat)
      reads this
      requires Valid()
    {
      (streamPosEnd - streamPos) + (cacheBuf.Length - cacheBegin)
    }

    /** Moves the cached bytes forward by `readSize`. */
    method MoveCached(readSize: nat)
      requires Valid() && readSize <= cacheBegin
      modifies cacheBuf
      ensures Moved(old(cacheBuf[..]), cacheBuf[..], cacheBegin, readSize)
    {
      var cached := cacheBuf[cacheBegin..];
      var to := cacheBegin - readSize;
      forall i | 0 <= i < |cached| {
        cacheBuf[to + i] := cached[i];
      }
      ghost var got := cacheBuf[..][to..cacheBuf.Length - readSize];
      forall i | 0 <= i < |cached| ensures got[i] == cached[i] {
        assert got[i] == cacheBuf[to + i];
      }
    }

    /** Reads `readSize` bytes of the stream to the end of the cache. */
    method FillEnd(readSize: nat)
      requires Valid() && readSize <= cacheBegin && streamPos + readSize <= streamPosEnd
      modifies cacheBuf
      ensures Filled(old(cacheBuf[..]), cacheBuf[..], src[streamPos..streamPos + readSize])
    {
      var from := cacheBuf.Length - readSize;
      forall i | from <= i < cacheBuf.Length {
        cacheBuf[i] := src[streamPos + (i - from)];
      }
      ghost var got, part := cacheBuf[..][from..], src[streamPos..streamPos + readSize];
      forall i | 0 <= i < readSize ensures got[i] == part[i] {
        assert got[i] == cacheBuf[from + i];
      }
    }

    /** Moves the cached bytes forward and fills the cache behind them. */
    method UpdateCache()
      requires Valid()
      modifies this`streamPos, this`cacheBegin, cacheBuf
      ensures Valid() && Rest() == old(Rest())
      ensures cacheBegin == 0 || streamPos == streamPosEnd
    {
      hide Moved, Filled;
      var readSize := if cacheBegin > streamPosEnd - streamPos then streamPosEnd - streamPos else cacheBegin;
      if readSize == 0 {
        return;
      }
      ghost var before := cacheBuf[..];
      MoveCached(readSize);
      ghost var moved := cacheBuf[..];
      FillEnd(readSize);
      MovedAndFilled(before, moved, cacheBuf[..], cacheBegin, readSize, src[streamPos..streamPos + readSize]);
      AppendSlices(before[cacheBegin..], src, streamPos, streamPos + readSize, streamPosEnd);
      cacheBegin := cacheBegin - readSize;
      streamPos := streamPos + readSize;
    }

    /** Makes the next `readSize` bytes available in the cache without reading them. */
    method AccessData(readSize: nat) returns (ok: bool)
      requires Valid()
      modifies this`streamPos, this`cacheBegin, cacheBuf
      ensures Valid() && Rest() == old(Rest())
      ensures ok == (readSize <= |Rest()| && readSize <= cacheBuf.Length)
      ensures ok ==> cacheBegin + readSize <= cacheBuf.Length
    {
      if readSize > cacheBuf.Length - cacheBegin {
        UpdateCache();
        if readSize > cacheBuf.Length - cacheBegin {
          return false;
        }
      }
      return true;
    }

    lemma FrontOfRest(n: nat)
      requires Valid() && cacheBegin + n <= cacheBuf.Length
      ensures n <= |Rest()| && cacheBuf[cacheBegin..cacheBegin + n] == Rest()[..n]
    {
      assert cacheBuf[cacheBegin..cacheBegin + n] == cacheBuf[..][cacheBegin..][..n];
    }

    /** `_TStreamCacheClip_skipData_noCheck`. */
    method SkipData(n: nat)
      requires Valid() && cacheBegin + n <= cacheBuf.Length
      modifies this`cacheBegin
      ensures Valid() && cacheBegin == old(cacheBegin) + n && Rest() == old(Rest())[n..]
    {
      ghost var cached := cacheBuf[..][cacheBegin..];
      cacheBegin := cacheBegin + n;
      assert cacheBuf[..][cacheBegin..] == cached[n..];
    }

    /** Reads `readSize` bytes, at most a cache full. */
    method ReadData(readSize: nat) returns (ok: bool, data: seq<byte>)
      requires Valid()
      modifies this`streamPos, this`cacheBegin, cacheBuf
      ensures Valid()
      ensures ok == (readSize <= |old(Rest())| && readSize <= cacheBuf.Length)
      ensures ok ==> data == old(Rest())[..readSize] && Rest() == old(Rest())[readSize..]
    {
      data := [];
      ok := AccessData(readSize);
      if ok {
        data := cacheBuf[cacheBegin..cacheBegin + readSize];
        FrontOfRest(readSize);
        SkipData(readSize);
      }
    }

    method ReadUInt8() returns (ok: bool, v: byte)
      requires Valid() && cacheBuf.Length > 0
      modifies this`streamPos, this`cacheBegin, cacheBuf
      ensures Valid()
      ensures ok == (old(Rest()) != [])
      ensures ok ==> v == old(Rest())[0] && Rest() == old(Rest())[1..]
    {
      var data;
      ok, data := ReadData(1);
      v := if ok then data[0] else 0;
    }

    /** `_TStreamCacheClip_unpackUIntWithTag` without tag bits. */
    method UnpackUInt() returns (ok: bool, v: u64)
      requires CanUnpack()
      modifies this`streamPos, this`cacheBegin, cacheBuf
      ensures CanUnpack()
      ensures ok == Unpack(old(Rest())).Some?
      ensures ok ==> (v, Rest()) == Unpack(old(Rest())).value
    {
      hide Rest, Unpack;
      v := 0;
      var readSize := if MAX_PACKED_BYTES > LeaveSize() then LeaveSize() else MAX_PACKED_BYTES;
      ok := AccessData(readSize);
      ghost var all := Rest();
      var code := cacheBuf[cacheBegin..cacheBegin + readSize];
      FrontOfRest(readSize);
      UnpackPrefix(all, readSize);
      var used;
      ok, v, used := UnpackCode(code);
      if ok {
        CutFront(all, readSize, used);
        SkipData(used);
      }
    }
  }
}
