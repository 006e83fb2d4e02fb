/**
 VCDIFF end to end: clipping, cutting into windows, encoding and serializing, then reading the
 file and decoding its windows, gives the new data back.
 */
module VcdiffRoundTrip {
  import opened Bytes
  import opened PackedUInt
  import opened AddrCache
  import opened InstCoder
  import opened Covers
  import opened WindowCodes
  import opened TargetWindow
  import opened VcDecoder
  import opened WindowRoundTrip
  import opened VcdiffFormat

  /** Bound on the window size under which all section lengths stay far from 2^64; the encoder
      is only called with 2^24. */
  const MAX_WINDOW: nat := 0x1_0000_0000

  // --- how long the sections are ----------------------------------------------------------------

  lemma {:induction false} CountAtMostSum(codes: seq<VcCode>)
    requires ValidCodes(codes)
    ensures |codes| <= SumSizes(codes)
  {
    if codes != [] {
      CountAtMostSum(codes[1..]);
    }
  }

  lemma {:induction false} AddrLength(codes: seq<VcCode>)
    ensures |AddrOf(codes)| <= 10 * |codes|
  {
    if codes != [] {
      AddrLength(codes[1..]);
      if codes[0].CopyCode? {
        PackLength(codes[0].addr);
      }
    }
  }

  lemma {:induction false} InstLength(codes: seq<VcCode>)
    requires ValidCodes(codes)
    ensures |InstOf(codes)| <= 11 * |codes|
  {
    if codes == [] {
    } else if |codes| >= 2 && Fused(codes[0], codes[1]).Some? {
      InstLength(codes[2..]);
    } else {
      InstLength(codes[1..]);
      PackLength(codes[0].size);
    }
  }

  lemma {:induction false} GapLength(cs: seq<Cover>, here: nat, end: nat, newData: seq<byte>)
    requires here <= end <= |newData|
    ensures |GapBytes(cs, here, end, newData)| <= end - here
  {
    if cs != [] && here <= cs[0].newPos && cs[0].NewEnd() <= end {
      GapLength(cs[1..], cs[0].NewEnd(), end, newData);
    }
  }

  // --- one window ----------------------------------------------------------------------------------

  /** A window as written; its covers start at `cs`. */
  function WindowBytes(cs: seq<Cover>, end: nat, e: Env, newData: seq<byte>): seq<byte>
    requires e.targetPos <= end <= |newData| < TWO_64 && Ordered(cs, e.targetPos, |newData|)
  {
    var codes := Codes(cs, e.targetPos, end, e, EmptyCache());
    CodesAreValid(cs, e.targetPos, end, e, EmptyCache(), |newData|);
    SrcHeader(e.srcPos, e.srcLen)
    + Delta(end - e.targetPos, GapBytes(cs, e.targetPos, end, newData), InstOf(codes), AddrOf(codes))
  }

  /** A window that produces something never looks like an interleaved one. */
  lemma {:induction false} NeverInterleaved(cs: seq<Cover>, end: nat, e: Env, newData: seq<byte>)
    requires e.targetPos < end <= |newData| < TWO_64
    requires Ordered(cs, e.targetPos, |newData|) && Fits(cs, end)
    ensures GapBytes(cs, e.targetPos, end, newData) != []
         || AddrOf(Codes(cs, e.targetPos, end, e, EmptyCache())) != []
  {
    if cs != [] && cs[0].newPos == e.targetPos {
      var codes := Codes(cs, e.targetPos, end, e, EmptyCache());
      var copy := CopyFor(cs[0], e, EmptyCache());
      assert codes[0] == copy;
      PackLength(copy.addr);
      assert |AddrBytes(copy)| > 0;
    } else if cs != [] && cs[0].newPos < end {
      assert |GapBytes(cs, e.targetPos, end, newData)| >= cs[0].newPos - e.targetPos;
    }
  }

  /** The sections of a window, decoded, give its part of the new data. */
  lemma {:induction false} SectionsDecode(cs: seq<Cover>, end: nat, e: Env, oldData: seq<byte>, newData: seq<byte>, out: seq<byte>)
    requires Setting(cs, e.targetPos, end, e, oldData, newData) && e.targetPos < end
    ensures ValidCodes(Codes(cs, e.targetPos, end, e, EmptyCache()))
    ensures var codes := Codes(cs, e.targetPos, end, e, EmptyCache());
      var r := Loop(WindowOf(oldData, e, end),
                    Begin(out, GapBytes(cs, e.targetPos, end, newData), InstOf(codes), AddrOf(codes)));
      r.Some? && r.value.out == out + newData[e.targetPos..end]
  {
    var codes := Codes(cs, e.targetPos, end, e, EmptyCache());
    CodesFillWindow(cs, e.targetPos, end, e, EmptyCache(), |newData|);
    NeverInterleaved(cs, end, e, newData);
    var st := Begin(out, GapBytes(cs, e.targetPos, end, newData), InstOf(codes), AddrOf(codes));
    ParseInstOf(codes);
    TotalOfOps(codes);
    LoopRunsOps(WindowOf(oldData, e, end), st);
    ExecCodes(cs, e.targetPos, end, e, st.(inst := []), oldData, newData);
  }

  lemma {:induction false} SectionBounds(cs: seq<Cover>, end: nat, e: Env, newData: seq<byte>)
    requires e.targetPos <= end <= |newData| < TWO_64 && end - e.targetPos <= MAX_WINDOW
    requires Ordered(cs, e.targetPos, |newData|) && Fits(cs, end)
    ensures var codes := Codes(cs, e.targetPos, end, e, EmptyCache());
      && ValidCodes(codes)
      && |GapBytes(cs, e.targetPos, end, newData)| < TWO_57
      && |InstOf(codes)| < TWO_57 && |AddrOf(codes)| < TWO_57
  {
    var codes := Codes(cs, e.targetPos, end, e, EmptyCache());
    CodesFillWindow(cs, e.targetPos, end, e, EmptyCache(), |newData|);
    CountAtMostSum(codes);
    AddrLength(codes);
    InstLength(codes);
    GapLength(cs, e.targetPos, end, newData);
  }

  lemma {:induction false} DecodeWindowParts(diff: seq<byte>, oldData: seq<byte>, out: seq<byte>, src: Source,
                                             r1: seq<byte>, sec: Sections, rest: seq<byte>, st: State)
    requires ParseSource(diff, false, |oldData|, |out|) == Some((src, r1)) && src.kind != VCD_TARGET
    requires ParseDelta(r1, src.sum) == Some((sec, rest))
    requires src.srcPos + src.srcLen <= |oldData|
    requires Loop(Window(oldData, src.srcPos, src.srcLen, sec.targetLen), Begin(out, sec.data, sec.inst, sec.addr))
          == Some(st)
    ensures DecodeWindow(diff, false, oldData, out) == Some((st.out, rest))
  {
  }

  /** One window, from its bytes. */
  lemma {:induction false} WindowDecodes(cs: seq<Cover>, end: nat, e: Env, oldData: seq<byte>, newData: seq<byte>,
                                         out: seq<byte>, rest: seq<byte>)
    requires Setting(cs, e.targetPos, end, e, oldData, newData)
    requires e.targetPos < end <= e.targetPos + MAX_WINDOW
    requires e.srcLen == 0 ==> e.srcPos == 0
    ensures DecodeWindow(WindowBytes(cs, end, e, newData) + rest, false, oldData, out)
         == Some((out + newData[e.targetPos..end], rest))
  {
    hide Codes, GapBytes, InstOf, AddrOf, ParseSource, ParseDelta, SrcHeader, Delta, Ordered, Fits, DecodeWindow, Loop;
    var codes := Codes(cs, e.targetPos, end, e, EmptyCache());
    CodesAreValid(cs, e.targetPos, end, e, EmptyCache(), |newData|);
    var data, inst, addr := GapBytes(cs, e.targetPos, end, newData), InstOf(codes), AddrOf(codes);
    var delta := Delta(end - e.targetPos, data, inst, addr);
    assert WindowBytes(cs, end, e, newData) + rest == SrcHeader(e.srcPos, e.srcLen) + (delta + rest);
    SectionBounds(cs, end, e, newData);
    ParseSrcHeader(e.srcPos, e.srcLen, |oldData|, |out|, delta + rest);
    ParseDeltaBytes(end - e.targetPos, data, inst, addr, rest);
    SectionsDecode(cs, end, e, oldData, newData, out);
    var src := Source(if e.srcLen > 0 then VCD_SOURCE else 0, e.srcPos, e.srcLen, NoSum);
    DecodeWindowParts(WindowBytes(cs, end, e, newData) + rest, oldData, out, src, delta + rest,
                      Sections(end - e.targetPos, data, inst, addr), rest,
                      Loop(WindowOf(oldData, e, end), Begin(out, data, inst, addr)).value);
  }

  // --- all windows -----------------------------------------------------------------------------------

  /** What is given to the window loop: covers that fit into windows, and the source window. */
  ghost predicate Input(cs: seq<Cover>, pos: nat, srcPos: nat, srcLen: nat, max: nat,
                        oldData: seq<byte>, newData: seq<byte>)
  {
    && |oldData| < TWO_64 && |newData| < TWO_64 && 0 < max <= MAX_WINDOW
    && srcPos + srcLen <= |oldData| && (srcLen == 0 ==> srcPos == 0)
    && Ordered(cs, pos, |newData|) && AllMatching(cs, oldData, newData) && ShortCovers(cs, max)
    && InSource(cs, Env(0, srcPos, srcLen))
  }

  /** All windows from `pos` on, as `serialize_vcdiff` writes them. */
  function AllWindows(cs: seq<Cover>, pos: nat, srcPos: nat, srcLen: nat, max: nat, newData: seq<byte>): seq<byte>
    requires |newData| < TWO_64 && 0 < max
    requires Ordered(cs, pos, |newData|) && ShortCovers(cs, max)
    decreases |newData| - pos
  {
    OrderedBounds(cs, pos, |newData|);
    if pos == |newData| then []
    else
      WindowProgress(cs, pos, |newData|, max);
      WindowEndIsGood(cs, pos, |newData|, pos + max);
      var end := WindowEnd(cs, pos, |newData|, pos + max);
      var rest := cs[Taken(cs, pos, |newData|, pos + max)..];
      WindowBytes(cs, end, Env(pos, srcPos, srcLen), newData)
      + AllWindows(rest, end, srcPos, srcLen, max, newData)
  }

  lemma {:induction false} InputNext(cs: seq<Cover>, pos: nat, srcPos: nat, srcLen: nat, max: nat,
                                     oldData: seq<byte>, newData: seq<byte>)
    requires Input(cs, pos, srcPos, srcLen, max, oldData, newData) && pos < |newData|
    ensures var end := WindowEnd(cs, pos, |newData|, pos + max);
      var k := Taken(cs, pos, |newData|, pos + max);
      && pos < end <= pos + max && end <= |newData|
      && Setting(cs, pos, end, Env(pos, srcPos, srcLen), oldData, newData)
      && Input(cs[k..], end, srcPos, srcLen, max, oldData, newData)
  {
    hide Ordered, WindowEnd, Taken, Fits;
    WindowProgress(cs, pos, |newData|, max);
    WindowEndIsGood(cs, pos, |newData|, pos + max);
  }

  /** The first window and the rest. */
  lemma {:induction false} WindowsStep(cs: seq<Cover>, pos: nat, srcPos: nat, srcLen: nat, max: nat,
                                       oldData: seq<byte>, newData: seq<byte>, end: nat, rest: seq<Cover>)
    requires Input(cs, pos, srcPos, srcLen, max, oldData, newData) && pos < |newData|
    requires end == WindowEnd(cs, pos, |newData|, pos + max)
    requires rest == cs[Taken(cs, pos, |newData|, pos + max)..]
    ensures pos < end <= pos + max && end <= |newData| && Fits(cs, end)
    ensures Input(rest, end, srcPos, srcLen, max, oldData, newData)
    ensures AllWindows(cs, pos, srcPos, srcLen, max, newData)
         == WindowBytes(cs, end, Env(pos, srcPos, srcLen), newData)
            + AllWindows(rest, end, srcPos, srcLen, max, newData)
  {
    InputNext(cs, pos, srcPos, srcLen, max, oldData, newData);
  }

  lemma {:induction false} DecodeStep(diff: seq<byte>, google: bool, oldData: seq<byte>, out: seq<byte>, out1: seq<byte>, rest: seq<byte>)
    requires DecodeWindow(diff, google, oldData, out) == Some((out1, rest))
    ensures DecodeWindows(diff, google, oldData, out) == DecodeWindows(rest, google, oldData, out1)
  {
  }

  /** Decoding the windows, behind the output so far, gives the whole new data. */
  lemma {:induction false} WindowsDecode(cs: seq<Cover>, pos: nat, srcPos: nat, srcLen: nat, max: nat,
                                         oldData: seq<byte>, newData: seq<byte>)
    requires Input(cs, pos, srcPos, srcLen, max, oldData, newData) && pos <= |newData|
    ensures DecodeWindows(AllWindows(cs, pos, srcPos, srcLen, max, newData), false, oldData, newData[..pos])
         == Some(newData)
    decreases |newData| - pos
  {
    if pos == |newData| {
      assert newData[..pos] == newData;
    } else {
      InputNext(cs, pos, srcPos, srcLen, max, oldData, newData);
      var end := WindowEnd(cs, pos, |newData|, pos + max);
      var rest := cs[Taken(cs, pos, |newData|, pos + max)..];
      WindowsDecode(rest, end, srcPos, srcLen, max, oldData, newData);
      FirstDecodes(cs, pos, srcPos, srcLen, max, oldData, newData,
                   AllWindows(rest, end, srcPos, srcLen, max, newData));
    }
  }

  lemma {:induction false} FirstDecodes(cs: seq<Cover>, pos: nat, srcPos: nat, srcLen: nat, max: nat,
                                        oldData: seq<byte>, newData: seq<byte>, tail: seq<byte>)
    requires Input(cs, pos, srcPos, srcLen, max, oldData, newData) && pos < |newData|
    ensures var end := WindowEnd(cs, pos, |newData|, pos + max);
      && pos < end <= |newData|
      && DecodeWindows(WindowBytes(cs, end, Env(pos, srcPos, srcLen), newData) + tail, false, oldData, newData[..pos])
         == DecodeWindows(tail, false, oldData, newData[..end])
  {
    hide AllWindows, WindowBytes, DecodeWindows, DecodeWindow, Ordered, WindowEnd, Taken, Fits;
    InputNext(cs, pos, srcPos, srcLen, max, oldData, newData);
    var end := WindowEnd(cs, pos, |newData|, pos + max);
    var e := Env(pos, srcPos, srcLen);
    WindowDecodes(cs, end, e, oldData, newData, newData[..pos], tail);
    assert newData[..pos] + newData[pos..end] == newData[..end];
    DecodeStep(WindowBytes(cs, end, e, newData) + tail, false, oldData, newData[..pos], newData[..end], tail);
  }
}
