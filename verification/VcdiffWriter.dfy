/** `serialize_vcdiff` without compression, and `create_vcdiff` for given covers. */
module VcdiffWriter {
  import opened Bytes
  import opened PackedUInt
  import opened AddrCache
  import opened InstCoder
  import opened Covers
  import opened WindowCodes
  import opened TargetWindow
  import opened VcdiffFormat
  import opened VcdiffRoundTrip
  import opened VcdiffFile
  import opened WindowTiling
  import ClipCovers
  import VcEncoder

  lemma {:induction false} GapBytesFirst(cs: seq<Cover>, here: nat, end: nat, newData: seq<byte>)
    requires here <= end <= |newData| && cs != [] && Ordered(cs, here, |newData|)
    ensures var c := cs[0];
      && here <= c.newPos && c.NewEnd() <= |newData| && Ordered(cs[1..], c.NewEnd(), |newData|)
      && (c.newPos >= end ==> GapBytes(cs, here, end, newData) == newData[here..end])
      && (c.newPos < end <= c.NewEnd() ==> GapBytes(cs, here, end, newData) == newData[here..c.newPos])
      && (c.newPos < end && c.NewEnd() < end ==>
            GapBytes(cs, here, end, newData)
            == newData[here..c.newPos] + GapBytes(cs[1..], c.NewEnd(), end, newData))
  {
    OrderedBounds(cs[1..], cs[0].NewEnd(), |newData|);
    if cs[0].newPos < end == cs[0].NewEnd() {
      NothingBehind(cs[1..], end, newData);
    }
  }

  /** `TNewDataDiffStream` over a window: the new bytes from `pos` to `end` under no cover from
      `coveri` on. */
  method NewDataDiff(covers: seq<Cover>, coveri: nat, pos: nat, end: nat, newData: seq<byte>, ghost cs: seq<Cover>)
    returns (bytes: seq<byte>)
    requires coveri <= |covers| && pos <= end <= |newData| && cs == covers[coveri..]
    requires Ordered(cs, pos, |newData|)
    ensures bytes == GapBytes(cs, pos, end, newData)
  {
    hide GapBytes, Ordered;
    ghost var all := GapBytes(cs, pos, end, newData);
    ghost var left := cs;
    bytes := [];
    AppendNothing(bytes, all);
    var lastNewEnd: nat := pos;
    var i := coveri;
    while i < |covers|
      invariant coveri <= i <= |covers| && left == covers[i..]
      invariant lastNewEnd <= end && Ordered(left, lastNewEnd, |newData|)
      invariant bytes + GapBytes(left, lastNewEnd, end, newData) == all
    {
      var cover := covers[i];
      GapBytesFirst(left, lastNewEnd, end, newData);
      var inc := cover.newPos - lastNewEnd;
      if lastNewEnd + inc >= end {
        inc := end - lastNewEnd;
      }
      var part := newData[lastNewEnd..lastNewEnd + inc];
      if lastNewEnd + inc == end || cover.NewEnd() >= end {
        return bytes + part;
      }
      AppendMoves(bytes, GapBytes(left, lastNewEnd, end, newData), part,
                  GapBytes(left[1..], cover.NewEnd(), end, newData), all);
      bytes := bytes + part;
      left := left[1..];
      lastNewEnd := cover.NewEnd();
      i := i + 1;
    }
    NoCovers(left, lastNewEnd, end, newData);
    bytes := bytes + newData[lastNewEnd..end];
  }

  lemma {:induction false} NoCovers(cs: seq<Cover>, here: nat, end: nat, newData: seq<byte>)
    requires here <= end <= |newData| && cs == []
    ensures GapBytes(cs, here, end, newData) == newData[here..end]
  {
  }

  lemma {:induction false} NothingBehind(cs: seq<Cover>, end: nat, newData: seq<byte>)
    requires end <= |newData| && Ordered(cs, end, |newData|)
    ensures GapBytes(cs, end, end, newData) == []
  {
  }

  /** The indicator byte and, with covers, the source window. */
  method WriteSource(srcPos: nat, srcEnd: nat) returns (buf: seq<byte>)
    requires srcPos <= srcEnd < TWO_64
    ensures buf == SrcHeader(srcPos, srcEnd - srcPos)
  {
    if srcPos < srcEnd {
      buf := [VCD_SOURCE];
      var packed := PackUInt(srcEnd - srcPos);
      buf := buf + packed;
      packed := PackUInt(srcPos);
      buf := buf + packed;
    } else {
      buf := [0];
    }
  }

  /** The lengths and the three sections. */
  method WriteDelta(targetLen: nat, data: seq<byte>, inst: seq<byte>, addr: seq<byte>) returns (buf: seq<byte>)
    requires targetLen < TWO_64 && |data| < TWO_57 && |inst| < TWO_57 && |addr| < TWO_57
    ensures buf == Delta(targetLen, data, inst, addr)
  {
    hide Pack;
    HeadLength(targetLen, |data|, |inst|, |addr|);
    var p0 := PackUInt(targetLen);
    var p1 := PackUInt(|data|);
    var p2 := PackUInt(|inst|);
    var p3 := PackUInt(|addr|);
    var deltaLen := |p0| + 1 + |p1| + |p2| + |p3| + |data| + |inst| + |addr|;
    buf := PackUInt(deltaLen);
    ghost var lengths := buf;
    assert DeltaHead(targetLen, |data|, |inst|, |addr|) == p0 + [0] + p1 + p2 + p3;
    assert |DeltaHead(targetLen, |data|, |inst|, |addr|)| == |p0| + 1 + |p1| + |p2| + |p3|;
    buf := buf + (p0 + [0] + p1 + p2 + p3);
    buf := buf + data + inst + addr;
  }

  /** The three sections of a window. */
  ghost predicate AreSections(cs: seq<Cover>, end: nat, e: Env, newData: seq<byte>,
                              data: seq<byte>, inst: seq<byte>, addr: seq<byte>)
    requires e.targetPos <= end <= |newData| < TWO_64
  {
    var codes := Codes(cs, e.targetPos, end, e, EmptyCache());
    && ValidCodes(codes)
    && data == GapBytes(cs, e.targetPos, end, newData) && inst == InstOf(codes) && addr == AddrOf(codes)
  }

  lemma {:induction false} SectionsAreShort(cs: seq<Cover>, end: nat, e: Env, newData: seq<byte>,
                                            data: seq<byte>, inst: seq<byte>, addr: seq<byte>)
    requires e.targetPos <= end <= |newData| < TWO_64 && end - e.targetPos <= MAX_WINDOW
    requires Ordered(cs, e.targetPos, |newData|) && Fits(cs, end)
    requires AreSections(cs, end, e, newData, data, inst, addr)
    ensures |data| < TWO_57 && |inst| < TWO_57 && |addr| < TWO_57
  {
    SectionBounds(cs, end, e, newData);
  }

  lemma {:induction false} WindowFromSections(cs: seq<Cover>, end: nat, e: Env, newData: seq<byte>,
                                              data: seq<byte>, inst: seq<byte>, addr: seq<byte>,
                                              head: seq<byte>, delta: seq<byte>)
    requires e.targetPos <= end <= |newData| < TWO_64 && Ordered(cs, e.targetPos, |newData|)
    requires AreSections(cs, end, e, newData, data, inst, addr)
    requires head == SrcHeader(e.srcPos, e.srcLen) && delta == Delta(end - e.targetPos, data, inst, addr)
    ensures head + delta == WindowBytes(cs, end, e, newData)
  {
  }

  /** The instruction and address sections from an encoder of their own, and the new bytes. */
  method BuildSections(covers: seq<Cover>, coveri: nat, targetPos: nat, targetLen: nat, srcPos: nat, srcLen: nat,
                       newData: seq<byte>, ghost cs: seq<Cover>)
    returns (data: seq<byte>, inst: seq<byte>, addr: seq<byte>)
    requires coveri <= |covers| && targetPos + targetLen <= |newData| < TWO_64 && cs == covers[coveri..]
    requires Ordered(cs, targetPos, |newData|)
    ensures AreSections(cs, targetPos + targetLen, Env(targetPos, srcPos, srcLen), newData, data, inst, addr)
  {
    hide InstOf, AddrOf, GapBytes, Codes, Ordered, ValidCodes;
    var encoder := new VcEncoder.Encoder();
    encoder.Encode(covers, coveri, targetPos, targetLen, srcPos, srcLen, cs, |newData|);
    inst, addr := encoder.outInst, encoder.outAddr;
    data := NewDataDiff(covers, coveri, targetPos, targetPos + targetLen, newData, cs);
  }

  /** The bytes of a window. */
  method WriteWindow(covers: seq<Cover>, coveri: nat, targetPos: nat, targetLen: nat, srcPos: nat, srcEnd: nat,
                     newData: seq<byte>, ghost cs: seq<Cover>)
    returns (buf: seq<byte>)
    requires coveri <= |covers| && targetLen <= MAX_WINDOW && srcPos <= srcEnd < TWO_64
    requires targetPos + targetLen <= |newData| < TWO_64 && cs == covers[coveri..]
    requires Ordered(cs, targetPos, |newData|) && Fits(cs, targetPos + targetLen)
    ensures buf == WindowBytes(cs, targetPos + targetLen, Env(targetPos, srcPos, srcEnd - srcPos), newData)
  {
    hide AreSections, WindowBytes, Fits, Ordered, SrcHeader, Delta;
    ghost var e := Env(targetPos, srcPos, srcEnd - srcPos);
    var head := WriteSource(srcPos, srcEnd);
    var data, inst, addr := BuildSections(covers, coveri, targetPos, targetLen, srcPos, srcEnd - srcPos, newData, cs);
    SectionsAreShort(cs, targetPos + targetLen, e, newData, data, inst, addr);
    var delta := WriteDelta(targetLen, data, inst, addr);
    WindowFromSections(cs, targetPos + targetLen, e, newData, data, inst, addr, head, delta);
    buf := head + delta;
  }

  lemma AppendMoves(done: seq<byte>, tail: seq<byte>, buf: seq<byte>, tail1: seq<byte>, all: seq<byte>)
    requires done + tail == all && tail == buf + tail1
    ensures (done + buf) + tail1 == all
  {
  }

  lemma AppendNothing(nothing: seq<byte>, s: seq<byte>)
    requires nothing == []
    ensures nothing + s == s && s + nothing == s
  {
  }

  lemma AppendFirst(all: seq<byte>, first: seq<byte>, tail: seq<byte>, buf: seq<byte>)
    requires all == first + tail && buf == first
    ensures all == buf + tail
  {
  }

  /** `GetTargetWindow` for the covers from `coveri` on as a list. */
  method CutWindow(covers: seq<Cover>, coveri: nat, targetPos: nat, newSize: nat, ghost cs: seq<Cover>)
    returns (coveriEnd: nat, targetLen: nat, ghost rest: seq<Cover>)
    requires coveri <= |covers| && targetPos < newSize && cs == covers[coveri..]
    requires Ordered(cs, targetPos, newSize) && ShortCovers(cs, MAX_TARGET_WINDOW)
    ensures targetPos + targetLen == WindowEnd(cs, targetPos, newSize, targetPos + MAX_TARGET_WINDOW)
    ensures coveriEnd <= |covers| && rest == covers[coveriEnd..]
    ensures rest == cs[Taken(cs, targetPos, newSize, targetPos + MAX_TARGET_WINDOW)..]
  {
    coveriEnd, targetLen := GetTargetWindow(targetPos, newSize, covers, coveri, MAX_TARGET_WINDOW);
    rest := covers[coveriEnd..];
  }

  /** One round of the window loop: where the window ends, and its bytes. */
  method NextWindow(covers: seq<Cover>, coveri: nat, targetPos: nat, srcPos: nat, srcEnd: nat,
                    ghost oldData: seq<byte>, newData: seq<byte>, ghost cs: seq<Cover>, ghost tail: seq<byte>)
    returns (buf: seq<byte>, coveriEnd: nat, targetLen: nat, ghost rest: seq<Cover>, ghost tail1: seq<byte>)
    requires coveri <= |covers| && targetPos < |newData| && srcPos <= srcEnd && cs == covers[coveri..]
    requires Input(cs, targetPos, srcPos, srcEnd - srcPos, MAX_TARGET_WINDOW, oldData, newData)
    requires tail == AllWindows(cs, targetPos, srcPos, srcEnd - srcPos, MAX_TARGET_WINDOW, newData)
    ensures coveriEnd <= |covers| && 0 < targetLen && targetPos + targetLen <= |newData| && rest == covers[coveriEnd..]
    ensures Input(rest, targetPos + targetLen, srcPos, srcEnd - srcPos, MAX_TARGET_WINDOW, oldData, newData)
    ensures tail1 == AllWindows(rest, targetPos + targetLen, srcPos, srcEnd - srcPos, MAX_TARGET_WINDOW, newData)
    ensures tail == buf + tail1
  {
    hide AllWindows, WindowBytes, WindowEnd, Taken, Ordered;
    coveriEnd, targetLen, rest := CutWindow(covers, coveri, targetPos, |newData|, cs);
    WindowsStep(cs, targetPos, srcPos, srcEnd - srcPos, MAX_TARGET_WINDOW, oldData, newData, targetPos + targetLen, rest);
    buf := WriteWindow(covers, coveri, targetPos, targetLen, srcPos, srcEnd, newData, cs);
    tail1 := AllWindows(rest, targetPos + targetLen, srcPos, srcEnd - srcPos, MAX_TARGET_WINDOW, newData);
    AppendFirst(tail, WindowBytes(cs, targetPos + targetLen, Env(targetPos, srcPos, srcEnd - srcPos), newData), tail1, buf);
  }

  lemma {:induction false} NoWindows(cs: seq<Cover>, pos: nat, srcPos: nat, srcLen: nat, max: nat, newData: seq<byte>)
    requires |newData| < TWO_64 && 0 < max && Ordered(cs, pos, |newData|) && ShortCovers(cs, max)
    requires pos == |newData|
    ensures AllWindows(cs, pos, srcPos, srcLen, max, newData) == []
  {
  }

  /** The window loop. */
  method WriteWindows(covers: seq<Cover>, srcPos: nat, srcEnd: nat, ghost oldData: seq<byte>, newData: seq<byte>)
    returns (windows: seq<byte>)
    requires srcPos <= srcEnd
    requires Input(covers, 0, srcPos, srcEnd - srcPos, MAX_TARGET_WINDOW, oldData, newData)
    ensures windows == AllWindows(covers, 0, srcPos, srcEnd - srcPos, MAX_TARGET_WINDOW, newData)
  {
    hide AllWindows, Ordered, ShortCovers, AllMatching, InSource;
    ghost var all := AllWindows(covers, 0, srcPos, srcEnd - srcPos, MAX_TARGET_WINDOW, newData);
    ghost var cs, tail := covers, all;
    windows := [];
    AppendNothing(windows, all);
    var targetPos: nat, coveri: nat := 0, 0;
    while targetPos < |newData|
      invariant coveri <= |covers| && targetPos <= |newData| && cs == covers[coveri..]
      invariant Input(cs, targetPos, srcPos, srcEnd - srcPos, MAX_TARGET_WINDOW, oldData, newData)
      invariant tail == AllWindows(cs, targetPos, srcPos, srcEnd - srcPos, MAX_TARGET_WINDOW, newData)
      invariant windows + tail == all
    {
      var buf, coveriEnd, targetLen;
      ghost var tail1;
      buf, coveriEnd, targetLen, cs, tail1 :=
        NextWindow(covers, coveri, targetPos, srcPos, srcEnd, oldData, newData, cs, tail);
      AppendMoves(windows, tail, buf, tail1, all);
      windows, tail := windows + buf, tail1;
      coveri := coveriEnd;
      targetPos := targetPos + targetLen;
    }
    assert coveri == |covers| && targetPos == |newData| by {
      NothingBehindEnd(cs, targetPos);
    }
    NoWindows(cs, targetPos, srcPos, srcEnd - srcPos, MAX_TARGET_WINDOW, newData);
    AppendNothing(tail, windows);
  }

  /** `serialize_vcdiff`. */
  method SerializeVcdiff(newData: seq<byte>, ghost oldData: seq<byte>, covers: seq<Cover>)
    returns (outDiff: seq<byte>)
    requires |oldData| < TWO_64 && |newData| < TWO_64
    requires Ordered(covers, 0, |newData|) && AllMatching(covers, oldData, newData)
    requires ShortCovers(covers, MAX_TARGET_WINDOW)
    ensures exists srcPos: nat, srcEnd: nat ::
              && IsSrcWindow(covers, srcPos, srcEnd) && srcPos <= srcEnd
              && outDiff == Serialize(covers, srcPos, srcEnd, newData)
  {
    var appHeadLen := PackUInt(17);
    assert Pack(17) == [17];
    var srcPos, srcEnd := GetSrcWindow(covers);
    InputFromCovers(covers, srcPos, srcEnd, oldData, newData);
    var windows := WriteWindows(covers, srcPos, srcEnd, oldData, newData);
    outDiff := FILE_TYPE + [0, VCD_APPHEADER] + appHeadLen + APP_HEAD + windows;
    assert outDiff == Serialize(covers, srcPos, srcEnd, newData);
  }

  /** The file written for these covers: they are clipped, and the source window is the least range of the
      old data that the pieces copy from. */
  ghost predicate IsFileOf(diff: seq<byte>, covers: seq<Cover>, newData: seq<byte>)
    requires |newData| < TWO_64
  {
    var clipped := ClipCovers.Flat(covers, MAX_TARGET_WINDOW / 2);
    && Ordered(clipped, 0, |newData|) && ShortCovers(clipped, MAX_TARGET_WINDOW)
    && exists srcPos: nat, srcEnd: nat ::
         IsSrcWindow(clipped, srcPos, srcEnd) && srcPos <= srcEnd && diff == Serialize(clipped, srcPos, srcEnd, newData)
  }

  /** `create_vcdiff` behind the search for covers: what it writes, the patcher turns into the new
      data (and refuses exactly when there is none). */
  method CreateVcdiff(newData: seq<byte>, oldData: seq<byte>, covers: seq<Cover>) returns (diff: seq<byte>)
    requires |oldData| < TWO_64 && |newData| < TWO_64
    requires Ordered(covers, 0, |newData|) && AllMatching(covers, oldData, newData)
    ensures Patch(diff, oldData) == if newData == [] then None else Some(newData)
    ensures IsFileOf(diff, covers, newData)
  {
    var clipped := ClipCovers.Clip(covers, MAX_TARGET_WINDOW / 2, 0, |newData|);
    ClipCovers.FlatIsGood(covers, MAX_TARGET_WINDOW / 2, 0, |newData|, oldData, newData);
    diff := SerializeVcdiff(newData, oldData, clipped);
    ghost var srcPos: nat, srcEnd: nat :|
      IsSrcWindow(clipped, srcPos, srcEnd) && srcPos <= srcEnd && diff == Serialize(clipped, srcPos, srcEnd, newData);
    EndToEnd(covers, srcPos, srcEnd, oldData, newData);
  }
}
