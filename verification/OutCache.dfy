/**
 The output stream with its write cache (`_TOutStreamCache`): fill, copies from a clip or a
 stream, and the self copy, whose three branches through the cache all equal the byte by byte
 copy.
 */
module OutCache {
  import opened Bytes
  import opened VcDecoder
  import opened StreamClip

  // --- copies with a lag -----------------------------------------------------------------------

  /** Behind `base`, every byte of `c` is the byte `ahead` before it. */
  ghost predicate Lagged(base: seq<byte>, c: seq<byte>, ahead: nat) {
    && 1 <= ahead <= |base| <= |c|
    && base <= c
    && forall i :: |base| <= i < |c| ==> c[i] == c[i - ahead]
  }

  /** Appending a run of at most `ahead` bytes from `ahead` before the end. */
  lemma LagAppend(base: seq<byte>, c: seq<byte>, ahead: nat, run: seq<byte>)
    requires Lagged(base, c, ahead) && |run| <= ahead
    requires run == c[|c| - ahead..|c| - ahead + |run|]
    ensures Lagged(base, c + run, ahead)
  {
    var d := c + run;
    forall i | |base| <= i < |d| ensures d[i] == d[i - ahead] {
      if i >= |c| {
        assert d[i] == run[i - |c|] == c[i - ahead];
      }
    }
  }

  lemma {:induction false} LaggedIsSelfCopy(base: seq<byte>, c: seq<byte>, ahead: nat)
    requires Lagged(base, c, ahead)
    ensures c == SelfCopy(base, ahead, |c| - |base|)
    decreases |c| - |base|
  {
    if |c| > |base| {
      assert c[|base|] == base[|base| - ahead];
      LaggedIsSelfCopy(base + [base[|base| - ahead]], c, ahead);
    }
  }

  /** A stream to copy from: other data, or the part of the output that is already written. */
  datatype Input = Other(data: seq<byte>) | Written

  /** What is in the output after copying `n` of `total` bytes behind `base`, from `srcPos` of a
      source; `w0` was written before the copy. */
  ghost predicate Copied(src: Input, base: seq<byte>, w0: seq<byte>, srcPos: nat, total: nat, n: nat, c: seq<byte>)
    requires n <= total && (src.Other? ==> srcPos + total <= |src.data|)
  {
    && |c| == |base| + n
    && (src.Other? ==> c == base + src.data[srcPos..srcPos + n])
    && (src.Written? && srcPos + total <= |w0| ==> c == base + w0[srcPos..srcPos + n])
    && (src.Written? && srcPos < |base| ==> Lagged(base, c, |base| - srcPos))
  }

  lemma CopiedStep(src: Input, base: seq<byte>, w0: seq<byte>, srcPos: nat, total: nat, n: nat, c: seq<byte>,
                   written: seq<byte>, run: seq<byte>)
    requires n + |run| <= total && (src.Other? ==> srcPos + total <= |src.data|)
    requires Copied(src, base, w0, srcPos, total, n, c)
    requires w0 <= written <= c
    requires src.Other? ==> run == src.data[srcPos + n..srcPos + n + |run|]
    requires src.Written? ==> srcPos + n + |run| <= |written| && run == written[srcPos + n..srcPos + n + |run|]
    ensures Copied(src, base, w0, srcPos, total, n + |run|, c + run)
  {
    hide Lagged;
    if src.Other? {
      AppendSlices(base, src.data, srcPos, srcPos + n, srcPos + n + |run|);
    } else {
      if srcPos + total <= |w0| {
        PrefixSlice(w0, written, srcPos + n, srcPos + n + |run|);
        AppendSlices(base, w0, srcPos, srcPos + n, srcPos + n + |run|);
      }
      if srcPos < |base| {
        PrefixSlice(written, c, srcPos + n, srcPos + n + |run|);
        LagAppend(base, c, |base| - srcPos, run);
      }
    }
  }

  lemma PrefixSlice(w: seq<byte>, c: seq<byte>, a: nat, b: nat)
    requires w <= c && a <= b <= |w|
    ensures w[a..b] == c[a..b]
  {
  }

  lemma CopiedNothing(src: Input, base: seq<byte>, w0: seq<byte>, srcPos: nat, total: nat)
    requires src.Other? ==> srcPos + total <= |src.data|
    ensures Copied(src, base, w0, srcPos, total, 0, base)
  {
  }

  class OutStream {
    /** What the destination stream holds. */
    var written: seq<byte>
    const cacheBuf: array<byte>
    var cacheCur: nat

    ghost predicate Valid()
      reads this
    {
      cacheCur < cacheBuf.Length
    }

    /** All output: written, then cached. */
    ghost function Contents(): (c: seq<byte>)
      reads this, cacheBuf
      requires cacheCur <= cacheBuf.Length
      ensures |c| == |written| + cacheCur
    {
      written + cacheBuf[..cacheCur]
    }

    /** An empty cache of the given size behind what is written. */
    lemma WrittenInFront()
      requires Valid()
      ensures written <= Contents()
    {
    }

    constructor (written: seq<byte>, cacheSize: nat)
      requires cacheSize > 0
      ensures Valid() && fresh(cacheBuf) && Contents() == written && this.written == written && cacheCur == 0
      ensures cacheBuf.Length == cacheSize
    {
      this.written := written;
      cacheBuf := new byte[cacheSize](_ => 0);
      cacheCur := 0;
    }

    method Flush()
      requires cacheCur <= cacheBuf.Length && 0 < cacheBuf.Length
      modifies this
      ensures Valid() && cacheCur == 0 && Contents() == old(Contents()) && written == old(Contents())
    {
      if cacheCur > 0 {
        written := written + cacheBuf[..cacheCur];
        cacheCur := 0;
      }
    }

    /** Writes `run` behind the cached bytes, and the cache to the stream when it is full. */
    method PutRun(run: seq<byte>)
      requires Valid() && cacheCur + |run| <= cacheBuf.Length
      modifies this, cacheBuf
      ensures Valid() && Contents() == old(Contents()) + run
      ensures old(written) <= written
    {
      ghost var before := Contents();
      ghost var head := cacheBuf[..cacheCur];
      forall i | 0 <= i < |run| {
        cacheBuf[cacheCur + i] := run[i];
      }
      assert cacheBuf[..cacheCur + |run|] == head + run;
      assert written + (head + run) == before + run;
      cacheCur := cacheCur + |run|;
      if cacheCur == cacheBuf.Length {
        Flush();
      }
    }

    method Write(data: seq<byte>)
      requires Valid()
      modifies this, cacheBuf
      ensures Valid() && Contents() == old(Contents()) + data
      ensures old(written) <= written
    {
      ghost var before := Contents();
      var pos := 0;
      assert data[0..0] == [];
      while pos < |data|
        invariant 0 <= pos <= |data| && Valid() && old(written) <= written
        invariant Contents() == before + data[0..pos]
      {
        AppendSlices(before, data, 0, pos, |data|);
        if |data| - pos >= cacheBuf.Length && cacheCur == 0 {
          assert Contents() == written;
          written := written + data[pos..];
          assert Contents() == written && data[0..|data|] == data;
          return;
        }
        var copyLen := if cacheBuf.Length - cacheCur <= |data| - pos then cacheBuf.Length - cacheCur else |data| - pos;
        AppendSlices(before, data, 0, pos, pos + copyLen);
        PutRun(data[pos..pos + copyLen]);
        pos := pos + copyLen;
      }
      assert data[0..pos] == data;
    }

    /** `_TOutStreamCache_fill`, named apart from its specification function. */
    method FillRun(v: byte, fillLength: nat)
      requires Valid()
      modifies this, cacheBuf
      ensures Valid() && Contents() == old(Contents()) + Fill(v, fillLength)
      ensures old(written) <= written
    {
      ghost var before := Contents();
      ghost var all := Fill(v, fillLength);
      var left := fillLength;
      assert all[0..0] == [];
      while left > 0
        invariant 0 <= left <= fillLength && Valid() && old(written) <= written
        invariant Contents() == before + all[0..fillLength - left]
      {
        var runStep := if cacheBuf.Length - cacheCur <= left then cacheBuf.Length - cacheCur else left;
        AppendSlices(before, all, 0, fillLength - left, fillLength - left + runStep);
        assert Fill(v, runStep) == all[fillLength - left..fillLength - left + runStep];
        PutRun(seq(runStep, _ => v));
        left := left - runStep;
      }
      assert all[0..fillLength] == all;
    }

    /** `_TOutStreamCache_copyFromStream`. The source may be the destination stream itself, which
        grows during the copy: then all that is read must be written in time. */
    method CopyFromStream(src: Input, srcPos: nat, copyLength: nat)
      requires Valid()
      requires src.Other? ==> srcPos + copyLength <= |src.data|
      requires src.Written? ==> srcPos + copyLength <= |written| || srcPos + cacheBuf.Length < |Contents()|
      modifies this, cacheBuf
      ensures Valid() && old(written) <= written
      ensures Copied(src, old(Contents()), old(written), srcPos, copyLength, copyLength, Contents())
    {
      hide Lagged, Copied, Contents;
      ghost var base, w0 := Contents(), written;
      var pos: nat, left: nat := srcPos, copyLength;
      CopiedNothing(src, base, w0, srcPos, copyLength);
      while left > 0
        invariant Valid() && srcPos <= pos && pos + left == srcPos + copyLength && w0 <= written
        invariant |Contents()| == |base| + (pos - srcPos)
        invariant Copied(src, base, w0, srcPos, copyLength, pos - srcPos, Contents())
      {
        var runStep := if cacheBuf.Length - cacheCur <= left then cacheBuf.Length - cacheCur else left;
        var run := if src.Other? then src.data[pos..pos + runStep] else written[pos..pos + runStep];
        WrittenInFront();
        CopiedStep(src, base, w0, srcPos, copyLength, pos - srcPos, Contents(), written, run);
        PutRun(run);
        pos := pos + runStep;
        left := left - runStep;
      }
    }

    /** One byte by byte run inside the cache: as much as fits. */
    method RunInCache(aheadLength: nat, runLen: nat, ghost base: seq<byte>)
      requires Valid() && 1 <= aheadLength <= cacheCur && cacheCur + runLen <= cacheBuf.Length
      requires Lagged(base, Contents(), aheadLength)
      modifies this`cacheCur, cacheBuf
      ensures cacheCur == old(cacheCur) + runLen
      ensures Lagged(base, Contents(), aheadLength)
    {
      var dst := cacheCur;
      var i := 0;
      while i < runLen
        invariant 0 <= i <= runLen && cacheCur == dst
        invariant Lagged(base, written + cacheBuf[..dst + i], aheadLength)
      {
        ghost var c := written + cacheBuf[..dst + i];
        cacheBuf[dst + i] := cacheBuf[dst + i - aheadLength];
        assert written + cacheBuf[..dst + i + 1] == c + [cacheBuf[dst + i]];
        assert c[|c| - aheadLength] == cacheBuf[dst + i];
        LagAppend(base, c, aheadLength, [cacheBuf[dst + i]]);
        i := i + 1;
      }
      cacheCur := cacheCur + runLen;
    }

    /** The bytes that end a flushed cache, moved to its front. */
    method Refill(aheadLength: nat, runLen: nat, ghost base: seq<byte>, ghost before: seq<byte>)
      requires Valid() && cacheCur == 0 && runLen <= aheadLength < cacheBuf.Length
      requires before + cacheBuf[..] == written
      requires Lagged(base, Contents(), aheadLength)
      modifies this`cacheCur, cacheBuf
      ensures Valid() && cacheCur == runLen && Lagged(base, Contents(), aheadLength)
    {
      ghost var c := Contents();
      ghost var run := cacheBuf[cacheBuf.Length - aheadLength..cacheBuf.Length - aheadLength + runLen];
      assert c == before + cacheBuf[..];
      assert run == c[|c| - aheadLength..|c| - aheadLength + runLen];
      LagAppend(base, c, aheadLength, run);
      forall i | 0 <= i < runLen {
        cacheBuf[i] := cacheBuf[cacheBuf.Length - aheadLength + i];
      }
      cacheCur := runLen;
      assert cacheBuf[..runLen] == run;
    }

    /** The copy inside the cache (`__copy_in_mem`). */
    method CopyInCache(aheadLength: nat, copyLength: nat, ghost base: seq<byte>)
      requires Valid() && 1 <= aheadLength <= cacheCur
      requires Lagged(base, Contents(), aheadLength)
      modifies this, cacheBuf
      ensures Valid() && |Contents()| == old(|Contents()|) + copyLength && old(written) <= written
      ensures Lagged(base, Contents(), aheadLength)
    {
      hide Lagged;
      var left: nat := copyLength;
      while left > 0
        invariant Valid() && old(written) <= written && Lagged(base, Contents(), aheadLength)
        invariant left > 0 ==> aheadLength <= cacheCur
        invariant |Contents()| + left == old(|Contents()|) + copyLength
      {
        var runLen := if cacheCur + left <= cacheBuf.Length then left else cacheBuf.Length - cacheCur;
        RunInCache(aheadLength, runLen, base);
        left := left - runLen;
        if cacheCur == cacheBuf.Length {
          ghost var before := written;
          Flush();
          assert cacheBuf[..] == cacheBuf[..cacheBuf.Length];
          runLen := if aheadLength <= left then aheadLength else left;
          Refill(aheadLength, runLen, base, before);
          left := left - runLen;
        }
      }
    }

    /** The copy of a whole cache full, again and again. */
    method CopyWholeCaches(aheadLength: nat, copyLength: nat, ghost base: seq<byte>)
      requires cacheCur == cacheBuf.Length == aheadLength && aheadLength >= 1
      requires Lagged(base, Contents(), aheadLength)
      modifies this, cacheBuf
      ensures Valid() && |Contents()| == old(|Contents()|) + copyLength && old(written) <= written
      ensures Lagged(base, Contents(), aheadLength)
    {
      hide Lagged;
      var left: nat := copyLength;
      while true
        invariant cacheCur <= cacheBuf.Length && old(written) <= written && Lagged(base, Contents(), aheadLength)
        invariant cacheCur < cacheBuf.Length ==> left == 0
        invariant |Contents()| + left == old(|Contents()|) + copyLength
        decreases left, cacheCur
      {
        if cacheCur == cacheBuf.Length {
          ghost var before := written;
          Flush();
          assert cacheBuf[..] == cacheBuf[..cacheBuf.Length];
          assert written == before + cacheBuf[..];
        }
        if left == 0 {
          return;
        }
        ghost var c := Contents();
        var runLen := if cacheBuf.Length <= left then cacheBuf.Length else left;
        assert c == written && written[|written| - aheadLength..] == cacheBuf[..];
        assert cacheBuf[..runLen] == c[|c| - aheadLength..|c| - aheadLength + runLen];
        LagAppend(base, c, aheadLength, cacheBuf[..runLen]);
        left := left - runLen;
        cacheCur := runLen;
      }
    }

    /** `_TOutStreamCache_copyFromSelf`: whatever lies in the stream and whatever in the cache, the
        output grows by the byte by byte copy. */
    method CopyFromSelf(aheadLength: nat, copyLength: nat) returns (ok: bool)
      requires Valid()
      modifies this, cacheBuf
      ensures Valid() && old(written) <= written
      ensures ok == (1 <= aheadLength <= old(|Contents()|))
      ensures ok ==> Contents() == SelfCopy(old(Contents()), aheadLength, copyLength)
    {
      if aheadLength < 1 || aheadLength > |written| + cacheCur {
        return false;
      }
      ok := true;
      ghost var base := Contents();
      var srcPos := |written| + cacheCur - aheadLength;
      if srcPos + copyLength <= |written| {
        CopyFromStream(Written, srcPos, copyLength);
      } else if srcPos >= |written| {
        CopyInCache(aheadLength, copyLength, base);
      } else if |written| + cacheCur <= srcPos + cacheBuf.Length {
        CopySmallFirst(aheadLength, copyLength, srcPos, base);
      } else {
        CopyFromStream(Written, srcPos, copyLength);
      }
      LaggedIsSelfCopy(base, Contents(), aheadLength);
    }

    /** The start of the copy lies in the stream but near enough to go on in the cache. */
    method CopySmallFirst(aheadLength: nat, copyLength: nat, srcPos: nat, ghost base: seq<byte>)
      requires Valid() && base == Contents() && 1 <= aheadLength <= |base| && srcPos == |base| - aheadLength
      requires srcPos < |written| < srcPos + copyLength && |base| <= srcPos + cacheBuf.Length
      modifies this, cacheBuf
      ensures Valid() && |Contents()| == |base| + copyLength && old(written) <= written
      ensures Lagged(base, Contents(), aheadLength)
    {
      var runLen := |written| - srcPos;
      ghost var head, run := cacheBuf[..cacheCur], written[srcPos..];
      forall i | 0 <= i < runLen {
        cacheBuf[cacheCur + i] := written[srcPos + i];
      }
      assert cacheBuf[..cacheCur + runLen] == head + run;
      assert written + (head + run) == base + run;
      assert run == base[srcPos..srcPos + runLen];
      LagAppend(base, base, aheadLength, run);
      cacheCur := cacheCur + runLen;
      if cacheCur == cacheBuf.Length {
        CopyWholeCaches(aheadLength, copyLength - runLen, base);
      } else {
        CopyInCache(aheadLength, copyLength - runLen, base);
      }
    }
  }

  /** `_TOutStreamCache_copyFromClip`. */
  method CopyFromClip(out: OutStream, src: Clip, copyLength: nat) returns (ok: bool)
    requires out.Valid() && src.Valid() && src.cacheBuf.Length > 0 && out.cacheBuf != src.cacheBuf
    modifies out, out.cacheBuf, src`streamPos, src`cacheBegin, src.cacheBuf
    ensures out.Valid() && src.Valid() && old(out.written) <= out.written
    ensures ok == (copyLength <= |old(src.Rest())|)
    ensures ok ==> out.Contents() == old(out.Contents()) + old(src.Rest())[..copyLength]
    ensures ok ==> src.Rest() == old(src.Rest())[copyLength..]
  {
    ghost var base, all := out.Contents(), src.Rest();
    ghost var got: seq<byte> := [];
    var left: nat := copyLength;
    while left > 0
      invariant out.Valid() && src.Valid() && old(out.written) <= out.written
      invariant |got| + left == copyLength && got + src.Rest() == all
      invariant out.Contents() == base + got
    {
      var runStep := if src.cacheBuf.Length <= left then src.cacheBuf.Length else left;
      NextRun(base, got, src.Rest(), runStep);
      var readOk, data := src.ReadData(runStep);
      if !readOk {
        return false;
      }
      out.Write(data);
      got := got + data;
      left := left - runStep;
    }
    AllRead(got, src.Rest(), all);
    ok := true;
  }

  lemma NextRun(base: seq<byte>, got: seq<byte>, rest: seq<byte>, n: nat)
    ensures n <= |rest| ==> (base + got) + rest[..n] == base + (got + rest[..n])
    ensures n <= |rest| ==> (got + rest[..n]) + rest[n..] == got + rest
  {
  }

  lemma AllRead(got: seq<byte>, rest: seq<byte>, all: seq<byte>)
    requires got + rest == all
    ensures got == all[..|got|] && rest == all[|got|..]
  {
  }
}
