/**
 The bsdiff patcher as it runs (`bspatchByClip`): cached clips for control, sub and copy data (one
 clip for all of an interlaced stream), a cached output stream and a temporary buffer. It computes
 exactly the loop of `BsdiffRoundTrip`.
 */
module BsPatch {
  import opened Bytes
  import opened BsdiffCodes
  import opened BsdiffRoundTrip
  import opened BsdiffFile
  import opened OutCache
  import opened StreamClip

  // --- the state of the loop ---------------------------------------------------------------------

  ghost predicate Ready(out: OutStream, c: Clip, s: Clip, d: Clip)
    reads out, c, s, d
  {
    && out.Valid() && c.Valid() && s.Valid() && d.Valid()
    && c.cacheBuf.Length >= 8 && s.cacheBuf.Length >= 8 && d.cacheBuf.Length >= 8
    && out.cacheBuf != c.cacheBuf && out.cacheBuf != s.cacheBuf && out.cacheBuf != d.cacheBuf
    && ((c == s && c == d)
        || (c != s && c != d && s != d
            && c.cacheBuf != s.cacheBuf && c.cacheBuf != d.cacheBuf && s.cacheBuf != d.cacheBuf))
  }

  ghost function FeedOf(c: Clip, s: Clip, d: Clip): Feed
    reads c, c.cacheBuf, s, s.cacheBuf, d, d.cacheBuf
    requires c.Valid() && s.Valid() && d.Valid()
  {
    if c == s then One(c.Rest()) else Three(c.Rest(), s.Rest(), d.Rest())
  }

  ghost function StateOf(newPos: nat, oldPos: u64, out: OutStream, c: Clip, s: Clip, d: Clip): State
    reads out, out.cacheBuf, c, c.cacheBuf, s, s.cacheBuf, d, d.cacheBuf
    requires Ready(out, c, s, d)
  {
    State(newPos, oldPos, out.Contents(), FeedOf(c, s, d))
  }

  // --- one round ------------------------------------------------------------------------------------

  /** `_clip_readUInt64`. */
  method ReadUInt64From(c: Clip) returns (ok: bool, v: u64)
    requires c.Valid() && c.cacheBuf.Length >= 8
    modifies c`streamPos, c`cacheBegin, c.cacheBuf
    ensures c.Valid()
    ensures ok == (8 <= |old(c.Rest())|)
    ensures ok ==> v == ReadUInt64(old(c.Rest())[..8]) && c.Rest() == old(c.Rest())[8..]
  {
    v := 0;
    var data;
    ok, data := c.ReadData(8);
    if ok {
      v := ReadUInt64(data);
    }
  }

  lemma ThreeReads(all: seq<byte>)
    requires |all| >= 24
    ensures all[..24][..8] == all[..8]
    ensures all[..24][8..16] == all[8..][..8]
    ensures all[..24][16..] == all[8..][8..][..8]
    ensures all[8..][8..][8..] == all[24..]
  {
    assert all[8..][8..] == all[16..];
  }

  /** The control triple. */
  method ReadTriple(c: Clip) returns (ok: bool, coverLen: u64, skipNewLen: u64, skipOldLen: u64)
    requires c.Valid() && c.cacheBuf.Length >= 8
    modifies c`streamPos, c`cacheBegin, c.cacheBuf
    ensures c.Valid()
    ensures ok == (CTRL_BYTES <= |old(c.Rest())|)
    ensures ok ==>
              var t := old(c.Rest())[..CTRL_BYTES];
              && coverLen == ReadUInt64(t[..8]) && skipNewLen == ReadUInt64(t[8..16])
              && skipOldLen == ReadUInt64(t[16..]) && c.Rest() == old(c.Rest())[CTRL_BYTES..]
  {
    hide ReadUInt64;
    coverLen, skipNewLen, skipOldLen := 0, 0, 0;
    ghost var all := c.Rest();
    if |all| >= 24 {
      ThreeReads(all);
    }
    ok, coverLen := ReadUInt64From(c);
    if !ok {
      return;
    }
    ok, skipNewLen := ReadUInt64From(c);
    if !ok {
      return;
    }
    ok, skipOldLen := ReadUInt64From(c);
  }

  /** Adds the next bytes of a clip to a buffer (`_TStreamCacheClip_addDataTo`). */
  method AddDataTo(s: Clip, dst: array<byte>, n: nat) returns (ok: bool)
    requires s.Valid() && n <= dst.Length && n <= s.cacheBuf.Length && dst != s.cacheBuf
    modifies dst, s`streamPos, s`cacheBegin, s.cacheBuf
    ensures s.Valid() && ok == (n <= |old(s.Rest())|)
    ensures ok ==> dst[..n] == AddBytes(old(dst[..n]), old(s.Rest())[..n]) && s.Rest() == old(s.Rest())[n..]
  {
    var data;
    ok, data := s.ReadData(n);
    if ok {
      forall i | 0 <= i < n {
        dst[i] := ((dst[i] as int + data[i] as int) % 256) as byte;
      }
      assert dst[..n] == AddBytes(old(dst[..n]), data);
    }
  }

  lemma AddJoin(a: seq<byte>, b: seq<byte>, k: nat, n: nat, base: seq<byte>)
    requires k + n <= |a| == |b|
    ensures (base + AddBytes(a[..k], b[..k])) + AddBytes(a[k..k + n], b[k..k + n])
         == base + AddBytes(a[..k + n], b[..k + n])
  {
  }

  /** A buffer full of old bytes plus sub data. */
  method AddStep(out: OutStream, s: Clip, oldData: seq<byte>, pos: nat, n: nat, cache: array<byte>) returns (ok: bool)
    requires out.Valid() && s.Valid() && pos + n <= |oldData| && n <= cache.Length <= s.cacheBuf.Length
    requires out.cacheBuf != s.cacheBuf && cache != out.cacheBuf && cache != s.cacheBuf
    modifies out, out.cacheBuf, cache, s`streamPos, s`cacheBegin, s.cacheBuf
    ensures out.Valid() && s.Valid() && ok == (n <= |old(s.Rest())|)
    ensures ok ==> out.Contents() == old(out.Contents()) + AddBytes(oldData[pos..pos + n], old(s.Rest())[..n])
    ensures ok ==> s.Rest() == old(s.Rest())[n..]
  {
    hide AddBytes;
    forall i | 0 <= i < n {
      cache[i] := oldData[pos + i];
    }
    assert cache[..n] == oldData[pos..pos + n];
    ok := AddDataTo(s, cache, n);
    if ok {
      out.Write(cache[..n]);
    }
  }

  lemma SliceStep(oldData: seq<byte>, oldPos: nat, len: nat, rest: seq<byte>, k: nat, n: nat)
    requires oldPos + len <= |oldData| && k + n <= len
    ensures oldData[oldPos..oldPos + len][k..k + n] == oldData[oldPos + k..oldPos + k + n]
    ensures len <= |rest| ==> rest[k..][..n] == rest[..len][k..k + n]
    ensures k + n <= |rest| ==> rest[k..][n..] == rest[k + n..]
  {
    SliceOfSlice(oldData, oldPos, oldPos + len, k, k + n);
  }

  lemma WholeAdd(a: seq<byte>, b: seq<byte>, base: seq<byte>)
    requires |a| == |b|
    ensures base + AddBytes(a[..0], b[..0]) == base && a[..|a|] == a && b[..|b|] == b
  {
  }

  /** `_patch_add_old_with_sub`: old bytes plus sub data, a buffer full at a time. */
  method AddOldWithSub(out: OutStream, s: Clip, oldData: seq<byte>, oldPos: nat, addLength: nat, cache: array<byte>)
    returns (ok: bool)
    requires out.Valid() && s.Valid() && oldPos + addLength <= |oldData| && 0 < cache.Length <= s.cacheBuf.Length
    requires out.cacheBuf != s.cacheBuf && cache != out.cacheBuf && cache != s.cacheBuf
    modifies out, out.cacheBuf, cache, s`streamPos, s`cacheBegin, s.cacheBuf
    ensures out.Valid() && s.Valid() && ok == (addLength <= |old(s.Rest())|)
    ensures ok ==> out.Contents() == old(out.Contents())
                                     + AddBytes(oldData[oldPos..oldPos + addLength], old(s.Rest())[..addLength])
    ensures ok ==> s.Rest() == old(s.Rest())[addLength..]
  {
    hide AddBytes, OutStream.Contents, Clip.Rest;
    ghost var base, rest := out.Contents(), s.Rest();
    ghost var a := oldData[oldPos..oldPos + addLength];
    ghost var b := if addLength <= |rest| then rest[..addLength] else a;
    var pos: nat, left: nat := oldPos, addLength;
    WholeAdd(a, b, base);
    while left > 0
      invariant out.Valid() && s.Valid() && pos + left == oldPos + addLength
      invariant left <= addLength && addLength - left <= |rest| && s.Rest() == rest[addLength - left..]
      invariant addLength <= |rest| ==> out.Contents() == base + AddBytes(a[..addLength - left], b[..addLength - left])
    {
      var decodeStep := if cache.Length > left then left else cache.Length;
      SliceStep(oldData, oldPos, addLength, rest, addLength - left, decodeStep);
      AddJoin(a, b, addLength - left, decodeStep, base);
      ok := AddStep(out, s, oldData, pos, decodeStep, cache);
      if !ok {
        return;
      }
      pos := pos + decodeStep;
      left := left - decodeStep;
    }
    ok := true;
  }

  /** The cover part of a round. */
  method CoverPart(out: OutStream, oldData: seq<byte>, c: Clip, s: Clip, d: Clip, cache: array<byte>,
                   newDataSize: nat, newPos: nat, oldPos: u64, coverLen: u64)
    returns (ok: bool)
    requires Ready(out, c, s, d) && newPos <= newDataSize && 0 < cache.Length <= s.cacheBuf.Length
    requires cache != out.cacheBuf && cache != c.cacheBuf && cache != s.cacheBuf && cache != d.cacheBuf
    modifies out, out.cacheBuf, cache, s`streamPos, s`cacheBegin, s.cacheBuf
    ensures Ready(out, c, s, d)
    ensures var r := CoverStep(oldData, newDataSize, coverLen, old(StateOf(newPos, oldPos, out, c, s, d)));
      && ok == r.Some?
      && (ok ==> StateOf(newPos + coverLen, oldPos, out, c, s, d) == r.value)
  {
    hide AddBytes;
    if coverLen > newDataSize - newPos || oldPos > |oldData| || coverLen > |oldData| - oldPos {
      return false;
    }
    ok := AddOldWithSub(out, s, oldData, oldPos, coverLen, cache);
  }

  /** The copy part of a round. */
  method CopyPart(out: OutStream, c: Clip, s: Clip, d: Clip, newDataSize: nat, newPos: nat, ghost oldPos: u64, skipNewLen: u64)
    returns (ok: bool)
    requires Ready(out, c, s, d) && newPos <= newDataSize
    modifies out, out.cacheBuf, d`streamPos, d`cacheBegin, d.cacheBuf
    ensures Ready(out, c, s, d)
    ensures var r := CopyStep(newDataSize, skipNewLen, old(StateOf(newPos, oldPos, out, c, s, d)));
      && ok == r.Some?
      && (ok ==> StateOf(newPos + skipNewLen, oldPos, out, c, s, d) == r.value)
  {
    if skipNewLen == 0 {
      return true;
    }
    if skipNewLen > newDataSize - newPos {
      return false;
    }
    ok := CopyFromClip(out, d, skipNewLen);
  }

  /** One round of the loop. */
  method PatchRound(out: OutStream, oldData: seq<byte>, c: Clip, s: Clip, d: Clip, cache: array<byte>,
                    newDataSize: nat, newPosBack: nat, oldPosBack: u64)
    returns (ok: bool, newPos: nat, oldPos: u64)
    requires Ready(out, c, s, d) && newPosBack < newDataSize && 0 < cache.Length <= s.cacheBuf.Length
    requires cache != out.cacheBuf && cache != c.cacheBuf && cache != s.cacheBuf && cache != d.cacheBuf
    modifies out, out.cacheBuf, cache
    modifies c`streamPos, c`cacheBegin, c.cacheBuf, s`streamPos, s`cacheBegin, s.cacheBuf
    modifies d`streamPos, d`cacheBegin, d.cacheBuf
    ensures Ready(out, c, s, d)
    ensures var r := Round(oldData, newDataSize, old(StateOf(newPosBack, oldPosBack, out, c, s, d)));
      && ok == r.Some?
      && (ok ==> StateOf(newPos, oldPos, out, c, s, d) == r.value)
  {
    hide ReadUInt64, OldPosAfter, CoverStep, CopyStep, OutStream.Contents, Clip.Rest;
    newPos, oldPos := newPosBack, oldPosBack;
    var coverLen, skipNewLen, skipOldLen;
    ok, coverLen, skipNewLen, skipOldLen := ReadTriple(c);
    if !ok {
      return;
    }
    ok := CoverPart(out, oldData, c, s, d, cache, newDataSize, newPos, oldPos, coverLen);
    if !ok {
      return;
    }
    oldPos := OldPosAfter(oldPos, coverLen, skipOldLen);
    newPos := newPos + coverLen;
    ok := CopyPart(out, c, s, d, newDataSize, newPos, oldPos, skipNewLen);
    newPos := newPos + skipNewLen;
  }

  /** `bspatchByClip`: the new data, or failure, exactly as the loop says. */
  method BspatchByClip(out: OutStream, oldData: seq<byte>, c: Clip, s: Clip, d: Clip, cache: array<byte>, newDataSize: nat)
    returns (ok: bool)
    requires Ready(out, c, s, d) && out.Contents() == [] && 0 < cache.Length <= s.cacheBuf.Length
    requires cache != out.cacheBuf && cache != c.cacheBuf && cache != s.cacheBuf && cache != d.cacheBuf
    modifies out, out.cacheBuf, cache
    modifies c`streamPos, c`cacheBegin, c.cacheBuf, s`streamPos, s`cacheBegin, s.cacheBuf
    modifies d`streamPos, d`cacheBegin, d.cacheBuf
    ensures var r := Patch(oldData, newDataSize, Begin(old(FeedOf(c, s, d))));
      && ok == r.Some?
      && (ok ==> out.written == r.value)
  {
    hide Round;
    var newPosBack: nat, oldPosBack: u64 := 0, 0;
    ghost var st0 := StateOf(0, 0, out, c, s, d);
    while newPosBack < newDataSize
      invariant Ready(out, c, s, d)
      invariant Patch(oldData, newDataSize, StateOf(newPosBack, oldPosBack, out, c, s, d)) == Patch(oldData, newDataSize, st0)
      decreases Size(FeedOf(c, s, d))
    {
      ok, newPosBack, oldPosBack := PatchRound(out, oldData, c, s, d, cache, newDataSize, newPosBack, oldPosBack);
      if !ok {
        return;
      }
    }
    out.Flush();
    ok := newPosBack == newDataSize;
  }

  const CACHE_COUNT: nat := 5

  /** The loop over three clips, or one. */
  method RunFeed(feed: Feed, oldData: seq<byte>, newDataSize: nat, cacheSize: nat) returns (ok: bool, newData: seq<byte>)
    requires cacheSize >= 8
    ensures var r := Patch(oldData, newDataSize, Begin(feed));
      && ok == r.Some?
      && (ok ==> newData == r.value)
  {
    hide Patch, OutStream.Contents, Clip.Rest;
    var out := new OutStream([], cacheSize);
    var cache := new byte[cacheSize](_ => 0);
    match feed {
      case One(all) =>
        var clip := new Clip(all, 0, |all|, cacheSize);
        assert all[0..|all|] == all;
        ok := BspatchByClip(out, oldData, clip, clip, clip, cache, newDataSize);
      case Three(ctrl, sub, copy) =>
        var c := new Clip(ctrl, 0, |ctrl|, cacheSize);
        var s := new Clip(sub, 0, |sub|, cacheSize);
        var d := new Clip(copy, 0, |copy|, cacheSize);
        assert ctrl[0..|ctrl|] == ctrl && sub[0..|sub|] == sub && copy[0..|copy|] == copy;
        ok := BspatchByClip(out, oldData, c, s, d, cache, newDataSize);
    }
    newData := out.written;
  }

  /** `bspatch_with_cache`: the new data, or failure, as `PatchFile` says; too little cache memory
      fails. */
  method BspatchWithCache(codec: Codec, diff: seq<byte>, oldData: seq<byte>, outSize: nat, allCacheSize: nat)
    returns (ok: bool, newData: seq<byte>)
    ensures ok ==> PatchFile(codec, diff, oldData, outSize) == Some(newData)
    ensures allCacheSize >= 8 * CACHE_COUNT && !ok ==> PatchFile(codec, diff, oldData, outSize).None?
  {
    hide Patch;
    newData := [];
    var info := GetInfo(diff);
    if info.None? || outSize != info.value.newSize {
      return false, newData;
    }
    var cacheSize := allCacheSize / (if info.value.isEndsley then CACHE_COUNT - 2 else CACHE_COUNT);
    if cacheSize < 8 {
      return false, newData;
    }
    var feed := Feeds(codec, info.value, diff);
    if feed.None? {
      return false, newData;
    }
    ok, newData := RunFeed(feed.value, oldData, info.value.newSize, cacheSize);
  }
}
