/**
 The whole VCDIFF file: header, first pass over the window sizes (`getVcDiffInfo`), decoding
 (`vcpatch_with_cache`), and the end-to-end theorem.
 */
module VcdiffFile {
  import opened Bytes
  import opened PackedUInt
  import opened Covers
  import opened WindowCodes
  import opened TargetWindow
  import opened VcdiffFormat
  import opened VcdiffRoundTrip
  import ClipCovers

  /** `vcdiff_kMaxTargetWindowsSize`. */
  const MAX_TARGET_WINDOW: nat := 16 * 0x10_0000

  const FILE_TYPE: seq<byte> := [0xD6, 0xC3, 0xC4]
  const GOOGLE_VERSION: byte := 83
  const VCD_APPHEADER: byte := 4

  /** "$hdiffz-VCDIFF&#a", the tag added to every diff. */
  const APP_HEAD: seq<byte> :=
    [36, 104, 100, 105, 102, 102, 122, 45, 86, 67, 68, 73, 70, 70, 38, 35, 97]

  // --- writing -------------------------------------------------------------------------------------

  const FILE_HEAD: seq<byte> := FILE_TYPE + [0, VCD_APPHEADER] + [17] + APP_HEAD

  /** The file that `create_vcdiff` writes for a list of covers, without compression. */
  function Serialize(covers: seq<Cover>, srcPos: nat, srcEnd: nat, newData: seq<byte>): seq<byte>
    requires |newData| < TWO_64 && srcPos <= srcEnd
    requires Ordered(covers, 0, |newData|) && ShortCovers(covers, MAX_TARGET_WINDOW)
  {
    FILE_HEAD + AllWindows(covers, 0, srcPos, srcEnd - srcPos, MAX_TARGET_WINDOW, newData)
  }

  // --- reading -------------------------------------------------------------------------------------

  /** `hpatch_VcDiffInfo`; `windows` are the bytes from `windowOffset` on. */
  datatype Info = Info(isGoogle: bool, compressorID: byte, appHeadLen: nat, windows: seq<byte>)

  function ParseFile(diff: seq<byte>): Option<Info> {
    if |diff| < 5 || diff[..3] != FILE_TYPE || (diff[3] != 0 && diff[3] != GOOGLE_VERSION) then None
    else ParseOptions(diff[5..], |diff|, diff[3] == GOOGLE_VERSION, diff[4])
  }

  /** What the header indicator announces: a compressor, no code table, an application tag. */
  function ParseOptions(r1: seq<byte>, fileLen: nat, isGoogle: bool, indicator: byte): Option<Info>
    requires |r1| <= fileLen
  {
    if indicator % 2 == 1 && r1 == [] then None
    else
      var compressorID: byte := if indicator % 2 == 1 then r1[0] else 0;
      var r2 := if indicator % 2 == 1 then r1[1..] else r1;
      if (indicator / 2) % 2 == 1 then None
      else ParseTag(r2, fileLen, isGoogle, compressorID, (indicator / 4) % 2 == 1)
  }

  function ParseTag(r2: seq<byte>, fileLen: nat, isGoogle: bool, compressorID: byte, hasTag: bool): Option<Info>
    requires |r2| <= fileLen
  {
    var (appHeadLen, r3) :- if hasTag then Unpack(r2) else Some((0, r2));
    var windowOffset := (fileLen - |r3|) + appHeadLen;
    if appHeadLen > |r3| || windowOffset > |r3| then None
    else Some(Info(isGoogle, compressorID, appHeadLen, r3[appHeadLen..]))
  }

  function Max(a: nat, b: nat): nat {
    if a >= b then a else b
  }

  /** `_getVcDiffWindowSizes`: largest source window, largest target window, sum of the targets. */
  function WindowSizes(diff: seq<byte>, google: bool, maxSrc: nat, maxTarget: nat, sum: nat): Option<(nat, nat, nat)>
    decreases |diff|
  {
    if diff == [] then Some((maxSrc, maxTarget, sum))
    else
      var (src, r1) :- ParseIndicator(diff, google);
      var (sec, r2) :- ParseDelta(r1, src.sum);
      if sum + sec.targetLen >= TWO_64 then None
      else
        WindowSizes(r2, google, Max(maxSrc, src.srcLen), Max(maxTarget, sec.targetLen), sum + sec.targetLen)
  }

  /** An output stream of a fixed size is full behind the patch (`_TOutStreamCache_isFinish`). */
  predicate FillsOutput(out: seq<byte>, outSize: Option<nat>) {
    outSize.None? || |out| == outSize.value
  }

  /** `vcpatch_with_cache` without a decompressor, into an output of unknown size. */
  function Patch(diff: seq<byte>, oldData: seq<byte>): Option<seq<byte>> {
    var info :- ParseFile(diff);
    var _ :- WindowSizes(info.windows, info.isGoogle, 0, 0, 0);
    if info.compressorID != 0 then None
    else DecodeWindows(info.windows, info.isGoogle, oldData, [])
  }

  // --- the first pass agrees with decoding -------------------------------------------------------------

  /** What the two passes see of a window. */
  lemma {:induction false} WindowOutput(diff: seq<byte>, google: bool, oldData: seq<byte>, out: seq<byte>)
    returns (out1: seq<byte>, rest: seq<byte>, src: Source, r1: seq<byte>, sec: Sections)
    requires DecodeWindow(diff, google, oldData, out).Some?
    ensures ParseIndicator(diff, google) == Some((src, r1)) && ParseDelta(r1, src.sum) == Some((sec, rest))
    ensures DecodeWindow(diff, google, oldData, out) == Some((out1, rest))
    ensures |out1| == |out| + sec.targetLen && |rest| < |diff|
  {
    var (src0, r10) := ParseIndicator(diff, google).value;
    src, r1 := src0, r10;
    var (sec0, rest0) := ParseDelta(r1, src.sum).value;
    sec, rest := sec0, rest0;
    out1 := DecodeWindow(diff, google, oldData, out).value.0;
  }

  lemma {:induction false} SizesStep(diff: seq<byte>, google: bool, src: Source, r1: seq<byte>, sec: Sections, r2: seq<byte>,
                                     maxSrc: nat, maxTarget: nat, sum: nat)
    requires ParseIndicator(diff, google) == Some((src, r1)) && ParseDelta(r1, src.sum) == Some((sec, r2))
    requires sum + sec.targetLen < TWO_64
    ensures WindowSizes(diff, google, maxSrc, maxTarget, sum)
         == WindowSizes(r2, google, Max(maxSrc, src.srcLen), Max(maxTarget, sec.targetLen), sum + sec.targetLen)
  {
    hide ParseIndicator, ParseDelta;
  }

  /** Both passes go on behind the first window. */
  lemma {:induction false} BothStep(diff: seq<byte>, google: bool, oldData: seq<byte>, out: seq<byte>)
    returns (out1: seq<byte>, rest: seq<byte>, srcLen: nat)
    requires diff != [] && DecodeWindows(diff, google, oldData, out).Some?
    ensures |rest| < |diff| && |out| <= |out1|
    ensures DecodeWindows(diff, google, oldData, out) == DecodeWindows(rest, google, oldData, out1)
    ensures forall maxSrc: nat, maxTarget: nat :: |out1| < TWO_64 ==>
              WindowSizes(diff, google, maxSrc, maxTarget, |out|)
              == WindowSizes(rest, google, Max(maxSrc, srcLen), Max(maxTarget, |out1| - |out|), |out1|)
  {
    hide WindowSizes, DecodeWindow, ParseDelta, ParseIndicator;
    var src, r1, sec;
    out1, rest, src, r1, sec := WindowOutput(diff, google, oldData, out);
    srcLen := src.srcLen;
    DecodeStep(diff, google, oldData, out, out1, rest);
    forall maxSrc: nat, maxTarget: nat | |out1| < TWO_64
      ensures WindowSizes(diff, google, maxSrc, maxTarget, |out|)
           == WindowSizes(rest, google, Max(maxSrc, srcLen), Max(maxTarget, |out1| - |out|), |out1|)
    {
      SizesStep(diff, google, src, r1, sec, rest, maxSrc, maxTarget, |out|);
    }
  }

  lemma {:induction false} OutputGrows(diff: seq<byte>, google: bool, oldData: seq<byte>, out: seq<byte>)
    requires DecodeWindows(diff, google, oldData, out).Some?
    ensures |DecodeWindows(diff, google, oldData, out).value| >= |out|
    decreases |diff|
  {
    if diff != [] {
      var out1, rest, _ := BothStep(diff, google, oldData, out);
      OutputGrows(rest, google, oldData, out1);
    }
  }

  /** When the windows decode, the first pass succeeds and its sum is the size of the output. */
  lemma {:induction false} SizesAgree(diff: seq<byte>, google: bool, oldData: seq<byte>, out: seq<byte>, maxSrc: nat, maxTarget: nat)
    requires DecodeWindows(diff, google, oldData, out).Some?
    requires |DecodeWindows(diff, google, oldData, out).value| < TWO_64
    ensures var r := WindowSizes(diff, google, maxSrc, maxTarget, |out|);
      && r.Some? && r.value.0 >= maxSrc && r.value.1 >= maxTarget
      && r.value.2 == |DecodeWindows(diff, google, oldData, out).value|
    decreases |diff|
  {
    if diff != [] {
      var out1, rest, srcLen := BothStep(diff, google, oldData, out);
      OutputGrows(rest, google, oldData, out1);
      SizesAgree(rest, google, oldData, out1, Max(maxSrc, srcLen), Max(maxTarget, |out1| - |out|));
    }
  }

  /** Source and target lengths of all windows, as the first pass reads them. */
  function Heads(diff: seq<byte>, google: bool): seq<(nat, nat)>
    decreases |diff|
  {
    if diff == [] then []
    else
      match ParseIndicator(diff, google)
      case None => []
      case Some((src, r1)) =>
        match ParseDelta(r1, src.sum)
        case None => []
        case Some((sec, rest)) => [(src.srcLen, sec.targetLen)] + Heads(rest, google)
  }

  ghost predicate IsMaxSrc(heads: seq<(nat, nat)>, least: nat, m: nat) {
    && least <= m && (forall i :: 0 <= i < |heads| ==> heads[i].0 <= m)
    && (m == least || exists i :: 0 <= i < |heads| && heads[i].0 == m)
  }

  ghost predicate IsMaxTarget(heads: seq<(nat, nat)>, least: nat, m: nat) {
    && least <= m && (forall i :: 0 <= i < |heads| ==> heads[i].1 <= m)
    && (m == least || exists i :: 0 <= i < |heads| && heads[i].1 == m)
  }

  lemma {:induction false} MaxOfFirst(h: (nat, nat), heads: seq<(nat, nat)>, least: nat, m: nat)
    ensures IsMaxSrc(heads, Max(least, h.0), m) ==> IsMaxSrc([h] + heads, least, m)
    ensures IsMaxTarget(heads, Max(least, h.1), m) ==> IsMaxTarget([h] + heads, least, m)
  {
    var all := [h] + heads;
    assert all[0] == h;
    assert forall i :: 0 <= i < |heads| ==> all[i + 1] == heads[i];
  }

  /** What the first pass finds: the largest source window and the largest target window. */
  lemma {:induction false} SizesAreMaxima(diff: seq<byte>, google: bool, maxSrc: nat, maxTarget: nat, sum: nat)
    requires WindowSizes(diff, google, maxSrc, maxTarget, sum).Some?
    ensures var r := WindowSizes(diff, google, maxSrc, maxTarget, sum).value;
      IsMaxSrc(Heads(diff, google), maxSrc, r.0) && IsMaxTarget(Heads(diff, google), maxTarget, r.1)
    decreases |diff|
  {
    hide ParseIndicator, ParseDelta;
    if diff != [] {
      var (src, r1) := ParseIndicator(diff, google).value;
      var (sec, rest) := ParseDelta(r1, src.sum).value;
      SizesAreMaxima(rest, google, Max(maxSrc, src.srcLen), Max(maxTarget, sec.targetLen), sum + sec.targetLen);
      var r := WindowSizes(rest, google, Max(maxSrc, src.srcLen), Max(maxTarget, sec.targetLen), sum + sec.targetLen).value;
      MaxOfFirst((src.srcLen, sec.targetLen), Heads(rest, google), maxSrc, r.0);
      MaxOfFirst((src.srcLen, sec.targetLen), Heads(rest, google), maxTarget, r.1);
    }
  }

  // --- the file header -----------------------------------------------------------------------------------

  lemma PackSeventeen()
    ensures Pack(17) == [17]
  {
  }

  /** The header written is read back exactly when at least six bytes follow it: the size check
      compares the offset of the windows with the bytes left behind the length of the tag. */
  lemma {:induction false} HeaderReadBack(windows: seq<byte>)
    ensures ParseFile(FILE_HEAD + windows)
         == if |windows| >= 6 then Some(Info(false, 0, 17, windows)) else None
  {
    hide Pack, Unpack;
    var diff := FILE_HEAD + windows;
    var r3 := APP_HEAD + windows;
    assert diff[..3] == FILE_TYPE;
    assert diff[3] == 0 && diff[4] == 4;
    assert diff[5..] == Pack(17) + r3 by {
      PackSeventeen();
    }
    UnpackPack(17, r3);
    assert r3[17..] == windows;
  }

  lemma {:induction false} WindowAtLeast(cs: seq<Cover>, end: nat, e: Env, newData: seq<byte>)
    requires e.targetPos <= end <= |newData| < TWO_64 && Ordered(cs, e.targetPos, |newData|)
    ensures |WindowBytes(cs, end, e, newData)| >= 6
  {
  }

  // --- end to end ------------------------------------------------------------------------------------------

  lemma {:induction false} InputFromCovers(covers: seq<Cover>, srcPos: nat, srcEnd: nat, oldData: seq<byte>, newData: seq<byte>)
    requires |oldData| < TWO_64 && |newData| < TWO_64
    requires Ordered(covers, 0, |newData|) && AllMatching(covers, oldData, newData)
    requires ShortCovers(covers, MAX_TARGET_WINDOW) && IsSrcWindow(covers, srcPos, srcEnd)
    ensures srcPos <= srcEnd <= |oldData|
    ensures Input(covers, 0, srcPos, srcEnd - srcPos, MAX_TARGET_WINDOW, oldData, newData)
  {
    OrderedBounds(covers, 0, |newData|);
    if covers != [] {
      assert covers[0].oldPos < covers[0].OldEnd();
    }
  }

  lemma {:induction false} EmptyIsRefused(covers: seq<Cover>, srcPos: nat, srcEnd: nat, oldData: seq<byte>)
    requires srcPos <= srcEnd && Ordered(covers, 0, 0) && ShortCovers(covers, MAX_TARGET_WINDOW)
    ensures Patch(Serialize(covers, srcPos, srcEnd, []), oldData) == None
  {
    HeaderReadBack([]);
  }

  /** For every old and new data and every sorted list of disjoint matching covers, of any length:
      clipping the covers, serializing and patching gives exactly the new data, unless the new
      data is empty, when the patcher refuses the file. */
  lemma {:induction false} EndToEnd(covers: seq<Cover>, srcPos: nat, srcEnd: nat, oldData: seq<byte>, newData: seq<byte>)
    requires |oldData| < TWO_64 && |newData| < TWO_64
    requires Ordered(covers, 0, |newData|) && AllMatching(covers, oldData, newData)
    requires IsSrcWindow(ClipCovers.Flat(covers, MAX_TARGET_WINDOW / 2), srcPos, srcEnd)
    ensures var clipped := ClipCovers.Flat(covers, MAX_TARGET_WINDOW / 2);
      && Ordered(clipped, 0, |newData|) && ShortCovers(clipped, MAX_TARGET_WINDOW) && srcPos <= srcEnd
      && Patch(Serialize(clipped, srcPos, srcEnd, newData), oldData)
         == if newData == [] then None else Some(newData)
  {
    hide Patch, AllWindows, DecodeWindows, Ordered, AllMatching, ClipCovers.Flat;
    var clipped := ClipCovers.Flat(covers, MAX_TARGET_WINDOW / 2);
    ClipCovers.FlatIsGood(covers, MAX_TARGET_WINDOW / 2, 0, |newData|, oldData, newData);
    InputFromCovers(clipped, srcPos, srcEnd, oldData, newData);
    var windows := AllWindows(clipped, 0, srcPos, srcEnd - srcPos, MAX_TARGET_WINDOW, newData);
    if newData == [] {
      EmptyIsRefused(clipped, srcPos, srcEnd, oldData);
    } else {
      WindowsFromStart(clipped, srcPos, srcEnd, oldData, newData);
      PatchOfFile(windows, oldData, newData);
    }
  }

  lemma {:induction false} WindowsFromStart(clipped: seq<Cover>, srcPos: nat, srcEnd: nat, oldData: seq<byte>, newData: seq<byte>)
    requires newData != [] && srcPos <= srcEnd
    requires Input(clipped, 0, srcPos, srcEnd - srcPos, MAX_TARGET_WINDOW, oldData, newData)
    ensures var windows := AllWindows(clipped, 0, srcPos, srcEnd - srcPos, MAX_TARGET_WINDOW, newData);
      && |windows| >= 6
      && DecodeWindows(windows, false, oldData, []) == Some(newData)
  {
    hide AllWindows, WindowBytes, DecodeWindows, Ordered, WindowEnd, Taken;
    InputNext(clipped, 0, srcPos, srcEnd - srcPos, MAX_TARGET_WINDOW, oldData, newData);
    var end := WindowEnd(clipped, 0, |newData|, MAX_TARGET_WINDOW);
    WindowsStep(clipped, 0, srcPos, srcEnd - srcPos, MAX_TARGET_WINDOW, oldData, newData, end,
                clipped[Taken(clipped, 0, |newData|, MAX_TARGET_WINDOW)..]);
    WindowAtLeast(clipped, end, Env(0, srcPos, srcEnd - srcPos), newData);
    WindowsDecode(clipped, 0, srcPos, srcEnd - srcPos, MAX_TARGET_WINDOW, oldData, newData);
    assert newData[..0] == [];
  }

  lemma {:induction false} PatchOfFile(windows: seq<byte>, oldData: seq<byte>, newData: seq<byte>)
    requires |windows| >= 6 && DecodeWindows(windows, false, oldData, []) == Some(newData) && |newData| < TWO_64
    ensures Patch(FILE_HEAD + windows, oldData) == Some(newData)
  {
    HeaderReadBack(windows);
    SizesAgree(windows, false, oldData, [], 0, 0);
  }
}
