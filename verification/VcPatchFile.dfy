/**
 Applying a whole VCDIFF file (`getVcDiffInfo`, `_getVcDiffWindowSizes`, `_vcpatch_window`,
 `vcpatch_with_cache`): the loops over the windows, with the ring cache for source windows and
 the division of the cache memory. They compute exactly what `VcdiffFile.Patch` says.
 */
module VcPatchFile {
  import opened Bytes
  import opened PackedUInt
  import opened AddrCache
  import opened InstCoder
  import opened VcDecoder
  import opened VcdiffFormat
  import opened VcdiffFile
  import opened OutCache
  import opened StreamClip
  import opened VcPatch
  import VcdiffRoundTrip
  import SrcCache
  import CodeTable

  /** `hpatch_kStreamCacheSize`. */
  const STREAM_CACHE: nat := 4096
  const WINDOW_CACHE: nat := 1024
  /** `_kCacheVcDecCount`. */
  const CACHE_COUNT: nat := 4
  /** `kBetterDecompressBufSize`. */
  const BETTER_CLIP_CACHE: nat := 32768

  // --- only the source window matters ----------------------------------------------------------

  /** Two windows that differ only in where their source segment is stored. */
  ghost predicate SameSegment(v: Window, w: Window) {
    && v.Valid() && w.Valid() && v.targetLen == w.targetLen && v.srcLen == w.srcLen && v.Segment() == w.Segment()
  }

  lemma SameCopy(v: Window, w: Window, out: seq<byte>, here: nat, addr: u64, size: nat)
    requires SameSegment(v, w) && here <= |out|
    ensures FastCopy(v, out, here, addr, size) == FastCopy(w, out, here, addr, size)
  {
    hide SelfCopy;
    var n := FromSource(w, addr, size);
    if n > 0 {
      SliceOfSlice(v.src, v.srcPos, v.srcPos + v.srcLen, addr, addr + n);
      SliceOfSlice(w.src, w.srcPos, w.srcPos + w.srcLen, addr, addr + n);
    }
  }

  lemma SameCode(v: Window, w: Window, kind: nat, size: nat, st: State)
    requires SameSegment(v, w) && st.Valid() && kind < CodeTable.COPY + CodeTable.MODES && size < 256
    ensures VcDecoder.DoCode(v, kind, size, st) == VcDecoder.DoCode(w, kind, size, st)
  {
    hide FastCopy, Decode, ReadAddr, TakeAddr;
    var r := ReadSize(size, st.inst);
    if r.Some? {
      var (n, rest) := r.value;
      forall addr: u64 ensures FastCopy(v, st.out, st.here, addr, n) == FastCopy(w, st.out, st.here, addr, n) {
        SameCopy(v, w, st.out, st.here, addr, n);
      }
    }
  }

  /** The decoding loop sees the source only through its window. */
  lemma {:induction false} SameLoop(v: Window, w: Window, st: State)
    requires SameSegment(v, w) && st.Valid() && st.here <= w.targetLen
    ensures Loop(v, st) == Loop(w, st)
    decreases |st.inst|
  {
    hide VcDecoder.DoCode;
    if st.here < w.targetLen && st.inst != [] {
      var p := CodeTable.Standard(st.inst[0]);
      var st0 := st.(inst := st.inst[1..]);
      SameCode(v, w, p.inst1, p.size1, st0);
      var st1 := VcDecoder.DoCode(w, p.inst1, p.size1, st0);
      if st1.Some? {
        if p.inst2 == CodeTable.NOOP {
          SameLoop(v, w, st1.value);
        } else {
          SameCode(v, w, p.inst2, p.size2, st1.value);
          var st2 := VcDecoder.DoCode(w, p.inst2, p.size2, st1.value);
          if st2.Some? {
            SameLoop(v, w, st2.value);
          }
        }
      }
    }
  }

  // --- what is read is taken from the front -------------------------------------------------------

  predicate IsSuffix(r: seq<byte>, s: seq<byte>) {
    |r| <= |s| && r == s[|s| - |r|..]
  }

  lemma SuffixTrans(a: seq<byte>, b: seq<byte>, c: seq<byte>)
    requires IsSuffix(a, b) && IsSuffix(b, c)
    ensures IsSuffix(a, c)
  {
  }

  lemma {:induction false} UnpackFromSuffix(acc: u64, s: seq<byte>, left: nat)
    ensures UnpackFrom(acc, s, left).Some? ==> IsSuffix(UnpackFrom(acc, s, left).value.1, s)
    decreases left
  {
    if !(acc / TWO_57 != 0 || s == [] || left == 0) && s[0] >= 128 {
      UnpackFromSuffix(acc * 128 + s[0] % 128, s[1..], left - 1);
    }
  }

  lemma {:induction false} UnpackSuffix(s: seq<byte>)
    ensures Unpack(s).Some? ==> IsSuffix(Unpack(s).value.1, s)
  {
    UnpackFromSuffix(0, s, MAX_PACKED_BYTES);
  }

  lemma {:induction false} IndicatorSuffix(s: seq<byte>, google: bool)
    ensures ParseIndicator(s, google).Some? ==> IsSuffix(ParseIndicator(s, google).value.1, s)
  {
    hide Unpack;
    if s != [] {
      var r0 := s[1..];
      UnpackSuffix(r0);
      if Unpack(r0).Some? {
        UnpackSuffix(Unpack(r0).value.1);
      }
    }
  }

  lemma {:induction false} LengthsSuffix(s: seq<byte>, sum: Checksum)
    ensures ParseLengths(s, sum).Some? ==> IsSuffix(ParseLengths(s, sum).value.1, s)
  {
    hide Unpack, IsSuffix;
    if ParseLengths(s, sum).Some? {
      var r1 := Unpack(s).value.1;
      var r2 := Unpack(r1[1..]).value.1;
      var r3 := Unpack(r2).value.1;
      var r4 := Unpack(r3).value.1;
      UnpackSuffix(s);
      OneSuffix(r1, s);
      UnpackSuffix(r1[1..]);
      SuffixTrans(r2, r1[1..], s);
      UnpackSuffix(r2);
      SuffixTrans(r3, r2, s);
      UnpackSuffix(r3);
      SuffixTrans(r4, r3, s);
      ChecksumSuffix(r4, sum);
      SuffixTrans(SkipChecksum(r4, sum).value, r4, s);
    }
  }

  lemma OneSuffix(r: seq<byte>, s: seq<byte>)
    requires IsSuffix(r, s) && r != []
    ensures IsSuffix(r[1..], s)
  {
  }

  lemma {:induction false} ChecksumSuffix(s: seq<byte>, sum: Checksum)
    ensures SkipChecksum(s, sum).Some? ==> IsSuffix(SkipChecksum(s, sum).value, s)
  {
    hide Unpack;
    UnpackSuffix(s);
  }

  // --- the head of a window ----------------------------------------------------------------------

  /** The window indicator, and length and position of the source window. */
  method ReadIndicator(clip: Clip, google: bool) returns (ok: bool, src: Source)
    requires clip.CanUnpack()
    modifies clip`streamPos, clip`cacheBegin, clip.cacheBuf
    ensures clip.CanUnpack()
    ensures ok == ParseIndicator(old(clip.Rest()), google).Some?
    ensures ok ==> (src, clip.Rest()) == ParseIndicator(old(clip.Rest()), google).value
  {
    src := Source(0, 0, 0, NoSum);
    var indicator, srcLen, srcPos;
    ok, indicator := clip.ReadUInt8();
    if !ok {
      return;
    }
    var adler := (indicator / VCD_ADLER32) % 2 == 1;
    var sum := if !adler then NoSum else if google then Packed else FourBytes;
    if adler {
      indicator := indicator - VCD_ADLER32;
    }
    if indicator == 0 {
      src := Source(0, 0, 0, sum);
    } else if indicator == VCD_SOURCE || indicator == VCD_TARGET {
      ok, srcLen := clip.UnpackUInt();
      if !ok {
        return;
      }
      ok, srcPos := clip.UnpackUInt();
      src := Source(indicator, srcPos, srcLen, sum);
    } else {
      ok := false;
    }
  }

  method ReadChecksum(clip: Clip, sum: Checksum) returns (ok: bool)
    requires clip.CanUnpack()
    modifies clip`streamPos, clip`cacheBegin, clip.cacheBuf
    ensures clip.CanUnpack()
    ensures ok == SkipChecksum(old(clip.Rest()), sum).Some?
    ensures ok ==> clip.Rest() == SkipChecksum(old(clip.Rest()), sum).value
  {
    if sum.Packed? {
      var v;
      ok, v := clip.UnpackUInt();
      ok := ok && v / 0x1_0000_0000 == 0;
    } else if sum.FourBytes? {
      var bytes;
      ok, bytes := clip.ReadData(4);
    } else {
      ok := true;
    }
  }

  /** The lengths behind the delta length. */
  method ReadLengths(clip: Clip, sum: Checksum)
    returns (ok: bool, targetLen: u64, dataLen: u64, instLen: u64, addrLen: u64)
    requires clip.CanUnpack()
    modifies clip`streamPos, clip`cacheBegin, clip.cacheBuf
    ensures clip.CanUnpack()
    ensures ok == ParseLengths(old(clip.Rest()), sum).Some?
    ensures ok ==> ((targetLen, dataLen, instLen, addrLen), clip.Rest()) == ParseLengths(old(clip.Rest()), sum).value
  {
    hide Unpack, SkipChecksum;
    dataLen, instLen, addrLen := 0, 0, 0;
    ok, targetLen := clip.UnpackUInt();
    if !ok {
      return;
    }
    var indicator;
    ok, indicator := clip.ReadUInt8();
    if !ok {
      return;
    }
    ok, dataLen := clip.UnpackUInt();
    if !ok {
      return;
    }
    ok, instLen := clip.UnpackUInt();
    if !ok {
      return;
    }
    ok, addrLen := clip.UnpackUInt();
    if !ok {
      return;
    }
    ok := ReadChecksum(clip, sum);
  }

  /** The delta length and what it must agree with. */
  method ReadDeltaHead(clip: Clip, sum: Checksum)
    returns (ok: bool, targetLen: u64, dataLen: u64, instLen: u64, addrLen: u64)
    requires clip.CanUnpack()
    modifies clip`streamPos, clip`cacheBegin, clip.cacheBuf
    ensures clip.CanUnpack()
    ensures ok == ParseDelta(old(clip.Rest()), sum).Some?
    ensures ok ==> IsSuffix(clip.Rest(), old(clip.Rest()))
    ensures ok ==>
              var len := dataLen + instLen + addrLen;
              && len <= |clip.Rest()| < |old(clip.Rest())|
              && ParseDelta(old(clip.Rest()), sum).value
                 == (Cut(targetLen, clip.Rest()[..len], dataLen, instLen), clip.Rest()[len..])
  {
    hide Unpack, ParseLengths, Cut, IsSuffix;
    targetLen, dataLen, instLen, addrLen := 0, 0, 0, 0;
    ghost var all := clip.Rest();
    UnpackSuffix(all);
    var deltaLen;
    ok, deltaLen := clip.UnpackUInt();
    if !ok {
      return;
    }
    ghost var r0 := clip.Rest();
    LengthsSuffix(r0, sum);
    var before := clip.LeaveSize();
    if deltaLen > before {
      ok := false;
      return;
    }
    ok, targetLen, dataLen, instLen, addrLen := ReadLengths(clip, sum);
    if !ok {
      return;
    }
    SuffixTrans(clip.Rest(), r0, all);
    var deltaHeadSize := before - clip.LeaveSize();
    ok := deltaLen == deltaHeadSize + dataLen + instLen + addrLen;
  }

  // --- one window ----------------------------------------------------------------------------------

  /** How the cache memory is divided: the output cache, and each clip's. */
  method DivideCache(targetLen: nat, cacheSize: nat, isInterleaved: bool) returns (outCache: nat, clipCache: nat)
    requires cacheSize >= MAX_PACKED_BYTES * CACHE_COUNT
    ensures outCache > 0 && clipCache >= MAX_PACKED_BYTES
    ensures outCache + clipCache * (if isInterleaved then 1 else 3) <= cacheSize
  {
    var clips := if isInterleaved then 1 else 3;
    if targetLen > 0 && targetLen + 3 * STREAM_CACHE <= cacheSize {
      outCache := targetLen;
      clipCache := (cacheSize - outCache) / clips;
    } else {
      clipCache := cacheSize / CACHE_COUNT;
      clipCache := if clipCache <= BETTER_CLIP_CACHE then clipCache else BETTER_CLIP_CACHE;
      outCache := cacheSize - clipCache * clips;
    }
  }

  /** The run of the decoder over one clip for everything. */
  method RunInterleaved(outCache: OutStream, src: Input, srcPos: nat, srcLen: nat, diff: seq<byte>, from: nat, end: nat,
                        targetLen: nat, clipCacheSize: nat, ghost w: Window)
    returns (ok: bool)
    requires outCache.Valid() && Sources(src, w, outCache) && clipCacheSize >= MAX_PACKED_BYTES
    requires from <= end <= |diff| && w.srcPos == srcPos && w.srcLen == srcLen && w.targetLen == targetLen
    modifies outCache, outCache.cacheBuf
    ensures outCache.Valid()
    ensures var r := Loop(w, Begin(old(outCache.Contents()), [], diff[from..end], []));
      && ok == r.Some?
      && (ok ==> outCache.Contents() == r.value.out)
  {
    hide Loop;
    var clip := new Clip(diff, from, end, clipCacheSize);
    ok := VcpatchDelta(outCache, targetLen, src, srcPos, srcLen, clip, clip, clip, w);
  }

  /** The run of the decoder over three clips. */
  method RunThree(outCache: OutStream, src: Input, srcPos: nat, srcLen: nat, diff: seq<byte>,
                  a: nat, b: nat, c: nat, d: nat, targetLen: nat, clipCacheSize: nat, ghost w: Window)
    returns (ok: bool)
    requires outCache.Valid() && Sources(src, w, outCache) && clipCacheSize >= MAX_PACKED_BYTES
    requires a <= b <= c <= d <= |diff| && (a < b || c < d)
    requires w.srcPos == srcPos && w.srcLen == srcLen && w.targetLen == targetLen
    modifies outCache, outCache.cacheBuf
    ensures outCache.Valid()
    ensures var r := Loop(w, Begin(old(outCache.Contents()), diff[a..b], diff[b..c], diff[c..d]));
      && ok == r.Some?
      && (ok ==> outCache.Contents() == r.value.out)
  {
    hide Loop;
    var dataClip := new Clip(diff, a, b, clipCacheSize);
    var instClip := new Clip(diff, b, c, clipCacheSize);
    var addrClip := new Clip(diff, c, d, clipCacheSize);
    ok := VcpatchDelta(outCache, targetLen, src, srcPos, srcLen, dataClip, instClip, addrClip, w);
  }

  /** The clips of a window and the run of the decoder over them, with a new output cache. */
  method RunDelta(written: seq<byte>, src: Input, srcPos: nat, srcLen: nat, diff: seq<byte>, offset: nat,
                  targetLen: nat, dataLen: nat, instLen: nat, addrLen: nat, cacheSize: nat, ghost w: Window)
    returns (ok: bool, out: seq<byte>)
    requires cacheSize >= MAX_PACKED_BYTES * CACHE_COUNT && offset + dataLen + instLen + addrLen <= |diff|
    requires w.Valid() && (if src.Other? then w.src == src.data else w.src <= written)
    requires w.srcPos == srcPos && w.srcLen == srcLen && w.targetLen == targetLen
    ensures var r := Loop(w, Begin(written, diff[offset..offset + dataLen],
                                   diff[offset + dataLen..offset + dataLen + instLen],
                                   diff[offset + dataLen + instLen..offset + dataLen + instLen + addrLen]));
      && ok == r.Some?
      && (ok ==> out == r.value.out)
  {
    hide Loop;
    var isInterleaved := dataLen == 0 && addrLen == 0;
    var outCacheSize, clipCacheSize := DivideCache(targetLen, cacheSize, isInterleaved);
    var outCache := new OutStream(written, outCacheSize);
    if isInterleaved {
      assert diff[offset..offset + dataLen] == [];
      ok := RunInterleaved(outCache, src, srcPos, srcLen, diff, offset, offset + instLen, targetLen, clipCacheSize, w);
    } else {
      ok := RunThree(outCache, src, srcPos, srcLen, diff, offset, offset + dataLen, offset + dataLen + instLen,
                     offset + dataLen + instLen + addrLen, targetLen, clipCacheSize, w);
    }
    outCache.Flush();
    out := outCache.written;
  }

  /** The sections of a window, as they are cut out of the diff. */
  lemma SectionsInDiff(diff: seq<byte>, offset: nat, targetLen: nat, dataLen: nat, instLen: nat, addrLen: nat)
    requires offset + dataLen + instLen + addrLen <= |diff|
    ensures var len := dataLen + instLen + addrLen;
      Cut(targetLen, diff[offset..][..len], dataLen, instLen)
      == Sections(targetLen, diff[offset..offset + dataLen], diff[offset + dataLen..offset + dataLen + instLen],
                  diff[offset + dataLen + instLen..offset + len])
    ensures diff[offset..][dataLen + instLen + addrLen..] == diff[offset + dataLen + instLen + addrLen..]
  {
    var len := dataLen + instLen + addrLen;
    assert diff[offset..][..len] == diff[offset..offset + len];
    SliceOfSlice(diff, offset, offset + len, 0, dataLen);
    SliceOfSlice(diff, offset, offset + len, dataLen, dataLen + instLen);
    SliceOfSlice(diff, offset, offset + len, dataLen + instLen, len);
  }

  lemma SuffixOfDiff(r: seq<byte>, diff: seq<byte>, from: nat)
    requires from <= |diff| && IsSuffix(r, diff[from..])
    ensures |diff| - |r| >= from && r == diff[|diff| - |r|..]
  {
  }

  /** The head of a window: where its source lies, its lengths, and where its sections begin. */
  method ReadHead(diff: seq<byte>, windowOffset: nat, google: bool, oldLen: nat, outLen: nat)
    returns (ok: bool, src: Source, targetLen: u64, dataLen: u64, instLen: u64, addrLen: u64, offset: nat)
    requires windowOffset < |diff|
    ensures ok ==>
              && windowOffset < offset && offset + dataLen + instLen + addrLen <= |diff|
              && src.srcPos + src.srcLen <= SourceLimit(src.kind, oldLen, outLen)
              && ParseSource(diff[windowOffset..], google, oldLen, outLen).Some?
              && var (s, r1) := ParseSource(diff[windowOffset..], google, oldLen, outLen).value;
                 s == src && ParseDelta(r1, src.sum)
                   == Some((Sections(targetLen, diff[offset..offset + dataLen],
                                     diff[offset + dataLen..offset + dataLen + instLen],
                                     diff[offset + dataLen + instLen..offset + dataLen + instLen + addrLen]),
                            diff[offset + dataLen + instLen + addrLen..]))
    ensures !ok ==>
              ParseSource(diff[windowOffset..], google, oldLen, outLen).None?
              || ParseDelta(ParseSource(diff[windowOffset..], google, oldLen, outLen).value.1,
                            ParseSource(diff[windowOffset..], google, oldLen, outLen).value.0.sum).None?
  {
    hide ParseIndicator, ParseDelta, Cut, IsSuffix;
    targetLen, dataLen, instLen, addrLen, offset := 0, 0, 0, 0, 0;
    var clip := new Clip(diff, windowOffset, |diff|, WINDOW_CACHE);
    ghost var all := diff[windowOffset..];
    assert clip.Rest() == all;
    IndicatorSuffix(all, google);
    ok, src := ReadIndicator(clip, google);
    if !ok {
      return;
    }
    var srcPosEnd := src.srcPos + src.srcLen;
    if srcPosEnd >= TWO_64 || srcPosEnd > SourceLimit(src.kind, oldLen, outLen) {
      ok := false;
      return;
    }
    ghost var r1 := clip.Rest();
    ok, targetLen, dataLen, instLen, addrLen := ReadDeltaHead(clip, src.sum);
    if ok {
      SuffixTrans(clip.Rest(), r1, all);
      offset := |diff| - clip.LeaveSize();
      SuffixOfDiff(clip.Rest(), diff, windowOffset);
      SectionsInDiff(diff, offset, targetLen, dataLen, instLen, addrLen);
    }
  }

  /** The run of the decoder with its source in the ring cache, when the window fits there. */
  method RunWindow(oldStream: SrcCache.Stream, dst: SrcCache.Stream, srcCache: SrcCache.Cache, src: Source,
                   diff: seq<byte>, offset: nat, targetLen: nat, dataLen: nat, instLen: nat, addrLen: nat, cacheSize: nat)
    returns (ok: bool, out: seq<byte>)
    requires srcCache.Valid() && oldStream != dst
    requires cacheSize >= MAX_PACKED_BYTES * CACHE_COUNT && offset + dataLen + instLen + addrLen <= |diff|
    requires src.kind == 0 || src.kind == VCD_SOURCE || src.kind == VCD_TARGET
    requires src.srcPos + src.srcLen <= SourceLimit(src.kind, |oldStream.data|, |dst.data|)
    modifies srcCache, srcCache.mem
    ensures srcCache.Valid()
    ensures var w := Window(if src.kind == VCD_TARGET then dst.data else oldStream.data, src.srcPos, src.srcLen, targetLen);
      var r := Loop(w, Begin(dst.data, diff[offset..offset + dataLen],
                             diff[offset + dataLen..offset + dataLen + instLen],
                             diff[offset + dataLen + instLen..offset + dataLen + instLen + addrLen]));
      && ok == r.Some?
      && (ok ==> out == r.value.out)
  {
    hide Loop;
    ghost var w := Window(if src.kind == VCD_TARGET then dst.data else oldStream.data, src.srcPos, src.srcLen, targetLen);
    if src.srcLen > 0 && src.srcLen <= srcCache.mem.Length {
      var data := CacheSource(oldStream, dst, srcCache, src);
      ghost var v := Window(data, 0, src.srcLen, targetLen);
      assert v.Segment() == data;
      SameLoop(v, w, Begin(dst.data, diff[offset..offset + dataLen],
                           diff[offset + dataLen..offset + dataLen + instLen],
                           diff[offset + dataLen + instLen..offset + dataLen + instLen + addrLen]));
      ok, out := RunDelta(dst.data, Other(data), 0, src.srcLen, diff, offset, targetLen, dataLen, instLen, addrLen,
                          cacheSize, v);
    } else {
      var input := if src.kind == VCD_TARGET then Written else Other(oldStream.data);
      ok, out := RunDelta(dst.data, input, src.srcPos, src.srcLen, diff, offset, targetLen, dataLen, instLen, addrLen,
                          cacheSize, w);
    }
  }

  /** The source window through the ring cache. */
  method CacheSource(oldStream: SrcCache.Stream, dst: SrcCache.Stream, srcCache: SrcCache.Cache, src: Source)
    returns (data: seq<byte>)
    requires srcCache.Valid() && 0 < src.srcLen <= srcCache.mem.Length && (src.kind == VCD_SOURCE || src.kind == VCD_TARGET)
    requires src.srcPos + src.srcLen <= SourceLimit(src.kind, |oldStream.data|, |dst.data|)
    modifies srcCache, srcCache.mem
    ensures srcCache.Valid()
    ensures data == (if src.kind == VCD_TARGET then dst.data else oldStream.data)[src.srcPos..src.srcPos + src.srcLen]
  {
    var stream := if src.kind == VCD_TARGET then dst else oldStream;
    srcCache.Update(stream, src.srcLen, src.srcPos);
    data := srcCache.Read(0, src.srcLen);
  }

  /** A window from its head and the run of the decoder. */
  lemma {:induction false} WindowFromParts(diff: seq<byte>, google: bool, oldData: seq<byte>, out: seq<byte>,
                                           src: Source, r1: seq<byte>, sec: Sections, rest: seq<byte>, w: Window)
    requires ParseSource(diff, google, |oldData|, |out|) == Some((src, r1)) && ParseDelta(r1, src.sum) == Some((sec, rest))
    requires src.srcPos + src.srcLen <= SourceLimit(src.kind, |oldData|, |out|)
    requires src.kind == 0 || src.kind == VCD_SOURCE || src.kind == VCD_TARGET
    requires w == Window(if src.kind == VCD_TARGET then out else oldData, src.srcPos, src.srcLen, sec.targetLen)
    ensures w.Valid()
    ensures var st := Loop(w, Begin(out, sec.data, sec.inst, sec.addr));
      DecodeWindow(diff, google, oldData, out) == if st.None? then None else Some((st.value.out, rest))
  {
    hide Loop, ParseDelta, ParseIndicator;
  }

  lemma {:induction false} SourceKinds(diff: seq<byte>, google: bool, oldLen: nat, outLen: nat)
    requires ParseSource(diff, google, oldLen, outLen).Some?
    ensures var kind := ParseSource(diff, google, oldLen, outLen).value.0.kind;
      kind == 0 || kind == VCD_SOURCE || kind == VCD_TARGET
  {
    hide Unpack;
  }

  lemma {:induction false} NoWindow(diff: seq<byte>, google: bool, oldData: seq<byte>, out: seq<byte>)
    requires DecodeWindow(diff, google, oldData, out).None? && diff != []
    ensures DecodeWindows(diff, google, oldData, out).None?
  {
    hide DecodeWindow;
  }

  lemma {:induction false} BadHead(diff: seq<byte>, google: bool, oldData: seq<byte>, out: seq<byte>)
    requires ParseSource(diff, google, |oldData|, |out|).None?
          || ParseDelta(ParseSource(diff, google, |oldData|, |out|).value.1,
                        ParseSource(diff, google, |oldData|, |out|).value.0.sum).None?
    ensures DecodeWindow(diff, google, oldData, out).None?
  {
    hide ParseDelta, ParseIndicator;
  }

  /** One round of the window loop: the output grows by a window, or decoding fails. */
  method NextWindow(oldStream: SrcCache.Stream, dst: SrcCache.Stream, srcCache: SrcCache.Cache, google: bool,
                    diff: seq<byte>, windowOffset: nat, cacheSize: nat)
    returns (ok: bool, nextOffset: nat)
    requires srcCache.Valid() && oldStream != dst && windowOffset < |diff|
    requires cacheSize >= MAX_PACKED_BYTES * CACHE_COUNT
    modifies srcCache, srcCache.mem, dst
    ensures srcCache.Valid()
    ensures var r := DecodeWindow(diff[windowOffset..], google, oldStream.data, old(dst.data));
      && ok == r.Some?
      && (ok ==> windowOffset < nextOffset <= |diff| && r.value == (dst.data, diff[nextOffset..]))
  {
    hide Loop, DecodeWindow, ParseSource, ParseDelta;
    nextOffset := windowOffset;
    var src, targetLen, dataLen, instLen, addrLen, offset;
    ok, src, targetLen, dataLen, instLen, addrLen, offset :=
      ReadHead(diff, windowOffset, google, |oldStream.data|, |dst.data|);
    if !ok {
      BadHead(diff[windowOffset..], google, oldStream.data, dst.data);
      return;
    }
    SourceKinds(diff[windowOffset..], google, |oldStream.data|, |dst.data|);
    nextOffset := offset + dataLen + instLen + addrLen;
    ghost var r1 := ParseSource(diff[windowOffset..], google, |oldStream.data|, |dst.data|).value.1;
    ghost var w := Window(if src.kind == VCD_TARGET then dst.data else oldStream.data, src.srcPos, src.srcLen, targetLen);
    WindowFromParts(diff[windowOffset..], google, oldStream.data, dst.data, src, r1,
                    Sections(targetLen, diff[offset..offset + dataLen], diff[offset + dataLen..offset + dataLen + instLen],
                             diff[offset + dataLen + instLen..nextOffset]),
                    diff[nextOffset..], w);
    var out;
    ok, out := RunWindow(oldStream, dst, srcCache, src, diff, offset, targetLen, dataLen, instLen, addrLen, cacheSize);
    if ok {
      Emit(dst, srcCache, out, w, Begin(dst.data, diff[offset..offset + dataLen],
                                        diff[offset + dataLen..offset + dataLen + instLen],
                                        diff[offset + dataLen + instLen..nextOffset]));
    }
  }

  /** Writing the output of a window keeps the cache right: what was written before does not change. */
  method Emit(dst: SrcCache.Stream, srcCache: SrcCache.Cache, out: seq<byte>, ghost w: Window, ghost st: State)
    requires srcCache.Valid() && w.Valid() && st.Valid() && st.here <= w.targetLen && st.out == dst.data
    requires Loop(w, st).Some? && out == Loop(w, st).value.out
    modifies dst
    ensures srcCache.Valid() && dst.data == out
  {
    ghost var before := dst.data;
    assert before <= out;
    var more := out[|dst.data|..];
    assert out == before + more;
    if srcCache.srcDataBck == dst {
      srcCache.HoldsWhenGrown(before, more, srcCache.srcPosBck, srcCache.srcLenBck);
    }
    dst.Append(more);
  }

  /** `_vcpatch_window`; the output stream may have a fixed size, which must then be filled. */
  method VcpatchWindow(oldStream: SrcCache.Stream, diff: seq<byte>, windowOffset: nat, srcLenMax: nat, google: bool,
                       outSize: Option<nat>, allCacheSize: nat)
    returns (ok: bool, newData: seq<byte>)
    requires windowOffset <= |diff|
    ensures allCacheSize < MAX_PACKED_BYTES * CACHE_COUNT ==> !ok
    ensures allCacheSize >= MAX_PACKED_BYTES * CACHE_COUNT ==>
              var r := DecodeWindows(diff[windowOffset..], google, oldStream.data, []);
              && ok == (r.Some? && FillsOutput(r.value, outSize))
              && (ok ==> newData == r.value)
  {
    hide DecodeWindows, DecodeWindow;
    newData := [];
    if allCacheSize < MAX_PACKED_BYTES * CACHE_COUNT {
      return false, newData;
    }
    var dst := new SrcCache.Stream([]);
    var memSize := if srcLenMax > 0 && srcLenMax + CACHE_COUNT * STREAM_CACHE <= allCacheSize then srcLenMax else 0;
    var cacheSize := allCacheSize - memSize;
    var srcCache := new SrcCache.Cache(memSize);
    ghost var all := DecodeWindows(diff[windowOffset..], google, oldStream.data, []);
    var offset := windowOffset;
    while offset < |diff|
      invariant offset <= |diff| && srcCache.Valid() && fresh(srcCache) && fresh(srcCache.mem) && fresh(dst)
      invariant DecodeWindows(diff[offset..], google, oldStream.data, dst.data) == all
    {
      ghost var before := dst.data;
      ghost var rest := diff[offset..];
      ok, offset := NextWindow(oldStream, dst, srcCache, google, diff, offset, cacheSize);
      if !ok {
        NoWindow(rest, google, oldStream.data, before);
        return;
      }
      VcdiffRoundTrip.DecodeStep(rest, google, oldStream.data, before, dst.data, diff[offset..]);
    }
    NothingLeft(diff[offset..], google, oldStream.data, dst.data);
    ok, newData := FillsOutput(dst.data, outSize), dst.data;
  }

  lemma {:induction false} NothingLeft(diff: seq<byte>, google: bool, oldData: seq<byte>, out: seq<byte>)
    requires diff == []
    ensures DecodeWindows(diff, google, oldData, out) == Some(out)
  {
  }

  // --- the file ------------------------------------------------------------------------------------

  lemma SuffixOfAll(r: seq<byte>, all: seq<byte>, n: nat)
    requires IsSuffix(r, all) && n <= |r|
    ensures all[|all| - |r| + n..] == r[n..]
  {
  }

  /** The application tag, which is skipped. */
  method ReadTag(clip: Clip, diff: seq<byte>, isGoogle: bool, compressorID: byte, hasTag: bool)
    returns (ok: bool, info: Info, windowOffset: nat)
    requires clip.CanUnpack() && IsSuffix(clip.Rest(), diff)
    modifies clip`streamPos, clip`cacheBegin, clip.cacheBuf
    ensures ok == ParseTag(old(clip.Rest()), |diff|, isGoogle, compressorID, hasTag).Some?
    ensures ok ==>
              && info == ParseTag(old(clip.Rest()), |diff|, isGoogle, compressorID, hasTag).value
              && windowOffset <= |diff| && diff[windowOffset..] == info.windows
  {
    hide Unpack, IsSuffix;
    LongEnough(clip.Rest(), diff);
    info, windowOffset := Info(false, 0, 0, []), 0;
    ghost var r2 := clip.Rest();
    UnpackSuffix(r2);
    var appHeadLen: u64 := 0;
    if hasTag {
      ok, appHeadLen := clip.UnpackUInt();
      if !ok {
        return;
      }
      SuffixTrans(clip.Rest(), r2, diff);
    }
    var r3 := clip.LeaveSize();
    LongEnough(clip.Rest(), diff);
    windowOffset := (|diff| - r3) + appHeadLen;
    ok := appHeadLen <= r3 && windowOffset <= r3;
    if ok {
      SuffixOfAll(clip.Rest(), diff, appHeadLen);
      info := Info(isGoogle, compressorID, appHeadLen, diff[windowOffset..]);
    }
  }

  /** The options behind the first five bytes. */
  method ReadOptions(clip: Clip, diff: seq<byte>, isGoogle: bool, indicator: byte)
    returns (ok: bool, info: Info, windowOffset: nat)
    requires clip.CanUnpack() && IsSuffix(clip.Rest(), diff)
    modifies clip`streamPos, clip`cacheBegin, clip.cacheBuf
    ensures ok == ParseOptions(old(clip.Rest()), |diff|, isGoogle, indicator).Some?
    ensures ok ==>
              && info == ParseOptions(old(clip.Rest()), |diff|, isGoogle, indicator).value
              && windowOffset <= |diff| && diff[windowOffset..] == info.windows
  {
    hide Unpack, IsSuffix, ParseTag;
    LongEnough(clip.Rest(), diff);
    info, windowOffset := Info(false, 0, 0, []), 0;
    var compressorID: byte := 0;
    if indicator % 2 == 1 {
      ghost var r1 := clip.Rest();
      ok, compressorID := clip.ReadUInt8();
      if !ok {
        return;
      }
      OneSuffix(r1, diff);
    }
    if (indicator / 2) % 2 == 1 {
      return false, info, windowOffset;
    }
    ok, info, windowOffset := ReadTag(clip, diff, isGoogle, compressorID, (indicator / 4) % 2 == 1);
  }

  lemma LongEnough(r: seq<byte>, s: seq<byte>)
    requires IsSuffix(r, s)
    ensures |r| <= |s|
  {
  }

  /** `getVcDiffInfo` up to the window sizes. */
  method GetVcDiffInfo(diff: seq<byte>) returns (ok: bool, info: Info, windowOffset: nat)
    ensures ok == ParseFile(diff).Some?
    ensures ok ==> info == ParseFile(diff).value && windowOffset <= |diff| && diff[windowOffset..] == info.windows
  {
    hide ParseOptions;
    info, windowOffset := Info(false, 0, 0, []), 0;
    if |diff| < 5 {
      return false, info, windowOffset;
    }
    var clip := new Clip(diff, 0, |diff|, WINDOW_CACHE);
    assert clip.Rest() == diff;
    var head;
    ok, head := clip.ReadData(5);
    assert head[..3] == diff[..3];
    if head[..3] != FILE_TYPE || (head[3] != 0 && head[3] != GOOGLE_VERSION) {
      return false, info, windowOffset;
    }
    ok, info, windowOffset := ReadOptions(clip, diff, head[3] == GOOGLE_VERSION, head[4]);
  }

  /** The head of a window for the first pass, which does not look where the source lies. */
  method SkipWindow(diff: seq<byte>, windowOffset: nat, google: bool)
    returns (ok: bool, srcLen: nat, targetLen: nat, nextOffset: nat)
    requires windowOffset < |diff|
    ensures ok ==>
              && windowOffset < nextOffset <= |diff|
              && ParseIndicator(diff[windowOffset..], google).Some?
              && var (s, r1) := ParseIndicator(diff[windowOffset..], google).value;
                 s.srcLen == srcLen && ParseDelta(r1, s.sum).Some?
                 && ParseDelta(r1, s.sum).value.0.targetLen == targetLen
                 && ParseDelta(r1, s.sum).value.1 == diff[nextOffset..]
    ensures !ok ==>
              ParseIndicator(diff[windowOffset..], google).None?
              || ParseDelta(ParseIndicator(diff[windowOffset..], google).value.1,
                            ParseIndicator(diff[windowOffset..], google).value.0.sum).None?
  {
    hide ParseIndicator, ParseDelta, IsSuffix, Clip.Rest;
    srcLen, targetLen, nextOffset := 0, 0, windowOffset;
    var clip := new Clip(diff, windowOffset, |diff|, WINDOW_CACHE);
    ghost var all := diff[windowOffset..];
    assert clip.Rest() == all;
    IndicatorSuffix(all, google);
    var src;
    ok, src := ReadIndicator(clip, google);
    if !ok {
      return;
    }
    ghost var r1 := clip.Rest();
    var dataLen, instLen, addrLen;
    ok, targetLen, dataLen, instLen, addrLen := ReadDeltaHead(clip, src.sum);
    if ok {
      SuffixTrans(clip.Rest(), r1, all);
      var offset := |diff| - clip.LeaveSize();
      SuffixOfDiff(clip.Rest(), diff, windowOffset);
      SectionsInDiff(diff, offset, targetLen, dataLen, instLen, addrLen);
      nextOffset := offset + dataLen + instLen + addrLen;
      srcLen := src.srcLen;
    }
  }

  /** `_getVcDiffWindowSizes`. */
  method GetWindowSizes(diff: seq<byte>, windowOffset: nat, google: bool)
    returns (ok: bool, maxSrc: nat, maxTarget: nat, sum: nat)
    requires windowOffset <= |diff|
    ensures ok == WindowSizes(diff[windowOffset..], google, 0, 0, 0).Some?
    ensures ok ==> (maxSrc, maxTarget, sum) == WindowSizes(diff[windowOffset..], google, 0, 0, 0).value
  {
    hide ParseIndicator, ParseDelta;
    var offset := windowOffset;
    maxSrc, maxTarget, sum := 0, 0, 0;
    while offset < |diff|
      invariant offset <= |diff|
      invariant WindowSizes(diff[offset..], google, maxSrc, maxTarget, sum)
             == WindowSizes(diff[windowOffset..], google, 0, 0, 0)
    {
      ghost var rest := diff[offset..];
      var srcLen, targetLen;
      ok, srcLen, targetLen, offset := SkipWindow(diff, offset, google);
      if !ok || sum + targetLen >= TWO_64 {
        return false, maxSrc, maxTarget, sum;
      }
      sum := sum + targetLen;
      maxSrc := if maxSrc >= srcLen then maxSrc else srcLen;
      maxTarget := if maxTarget >= targetLen then maxTarget else targetLen;
    }
    ok := true;
  }

  /** `vcpatch_with_cache` without a decompressor: the new data, or failure, exactly as `Patch` says
      and the size of the output demands. */
  method VcpatchWithCache(oldStream: SrcCache.Stream, diff: seq<byte>, outSize: Option<nat>, cacheSize: nat)
    returns (ok: bool, newData: seq<byte>)
    ensures ok ==> Patch(diff, oldStream.data) == Some(newData) && FillsOutput(newData, outSize)
    ensures cacheSize >= MAX_PACKED_BYTES * CACHE_COUNT && !ok ==>
              Patch(diff, oldStream.data).None? || !FillsOutput(Patch(diff, oldStream.data).value, outSize)
  {
    hide ParseFile, WindowSizes, DecodeWindows;
    newData := [];
    var info, windowOffset;
    ok, info, windowOffset := GetVcDiffInfo(diff);
    if !ok {
      return;
    }
    var maxSrc, maxTarget, sum;
    ok, maxSrc, maxTarget, sum := GetWindowSizes(diff, windowOffset, info.isGoogle);
    if !ok {
      return;
    }
    if info.compressorID != 0 {
      return false, newData;
    }
    ok, newData := VcpatchWindow(oldStream, diff, windowOffset, maxSrc, info.isGoogle, outSize, cacheSize);
  }
}
