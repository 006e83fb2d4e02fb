/** The two bsdiff file formats: header, packed streams, and applying a file (`bspatch_with_cache`). */
module BsdiffFile {
  import opened Bytes
  import opened BsdiffCodes
  import opened Covers
  import opened BsdiffRoundTrip
  import opened BsdiffPadding

  /** "BSDIFF40" */
  const BSDIFF_TYPE: seq<byte> := [66, 83, 68, 73, 70, 70, 52, 48]
  /** "ENDSLEY/BSDIFF43" */
  const ENDSLEY_TYPE: seq<byte> := [69, 78, 68, 83, 76, 69, 89, 47, 66, 83, 68, 73, 70, 70, 52, 51]
  const HEAD_LEN: nat := 32
  const ENDSLEY_HEAD_LEN: nat := 24

  /** A compressor and its decompressor, which gives back what was packed and may deliver more
      behind it. */
  datatype Codec = Codec(pack: seq<byte> -> seq<byte>, unpack: seq<byte> -> seq<byte>) {
    ghost predicate Valid() {
      forall s :: s <= unpack(pack(s))
    }
  }

  // --- writing -----------------------------------------------------------------------------------------

  function ThreeStreamFile(ctrl: seq<byte>, sub: seq<byte>, copy: seq<byte>, newLen: u64): seq<byte>
    requires |ctrl| < TWO_64 && |sub| < TWO_64
  {
    BSDIFF_TYPE + Word(|ctrl|) + Word(|sub|) + Word(newLen) + ctrl + sub + copy
  }

  function OneStreamFile(all: seq<byte>, newLen: u64): seq<byte> {
    ENDSLEY_TYPE + Word(newLen) + all
  }

  // --- reading -----------------------------------------------------------------------------------------

  /** `hpatch_BsDiffInfo`. */
  datatype Info = Info(isEndsley: bool, headSize: nat, ctrlSize: u64, subSize: u64, newSize: u64)

  function ReadInfo(diff: seq<byte>): Option<Info>
    requires |diff| >= HEAD_LEN
  {
    if diff[..8] == BSDIFF_TYPE then
      Some(Info(false, HEAD_LEN, ReadUInt64(diff[8..16]), ReadUInt64(diff[16..24]), ReadUInt64(diff[24..32])))
    else if diff[..16] == ENDSLEY_TYPE then
      Some(Info(true, ENDSLEY_HEAD_LEN, 0, 0, ReadUInt64(diff[16..24])))
    else None
  }

  /** `getBsDiffInfo`. */
  function GetInfo(diff: seq<byte>): (r: Option<Info>)
    ensures r.Some? ==>
              r.value.headSize <= |diff| && r.value.headSize + r.value.ctrlSize + r.value.subSize < |diff|
  {
    if |diff| < HEAD_LEN then None
    else
      var info :- ReadInfo(diff);
      if info.ctrlSize < |diff| && info.subSize < |diff| && info.headSize + info.ctrlSize + info.subSize < |diff|
      then Some(info) else None
  }

  /** The unpacked streams; a packed stream of no bytes is refused. */
  function Feeds(codec: Codec, info: Info, diff: seq<byte>): Option<Feed>
    requires info.headSize + info.ctrlSize + info.subSize < |diff|
  {
    var a, b := info.headSize + info.ctrlSize, info.headSize + info.ctrlSize + info.subSize;
    if info.isEndsley then Some(One(codec.unpack(diff[info.headSize..])))
    else if info.ctrlSize == 0 || info.subSize == 0 then None
    else Some(Three(codec.unpack(diff[info.headSize..a]), codec.unpack(diff[a..b]), codec.unpack(diff[b..])))
  }

  /** `bspatch_with_cache`, writing to a stream of size `outSize`. */
  function PatchFile(codec: Codec, diff: seq<byte>, oldData: seq<byte>, outSize: nat): Option<seq<byte>> {
    var info :- GetInfo(diff);
    if outSize != info.newSize then None
    else
      var feed :- Feeds(codec, info, diff);
      Patch(oldData, info.newSize, Begin(feed))
  }

  // --- reading undoes writing ----------------------------------------------------------------------------

  lemma ThreeStreamParts(ctrl: seq<byte>, sub: seq<byte>, copy: seq<byte>, newLen: u64)
    requires |ctrl| < TWO_64 && |sub| < TWO_64
    ensures var f := ThreeStreamFile(ctrl, sub, copy, newLen);
      && |f| == HEAD_LEN + |ctrl| + |sub| + |copy|
      && f[..8] == BSDIFF_TYPE && f[8..16] == Word(|ctrl|) && f[16..24] == Word(|sub|) && f[24..32] == Word(newLen)
      && f[32..32 + |ctrl|] == ctrl && f[32 + |ctrl|..32 + |ctrl| + |sub|] == sub && f[32 + |ctrl| + |sub|..] == copy
  {
    hide Word;
    var f := ThreeStreamFile(ctrl, sub, copy, newLen);
    var head := BSDIFF_TYPE + Word(|ctrl|) + Word(|sub|) + Word(newLen);
    assert f == head + (ctrl + (sub + copy));
    assert f[..32] == head;
    assert f[..8] == head[..8] && f[8..16] == head[8..16] && f[16..24] == head[16..24] && f[24..32] == head[24..32];
    TailParts(head, ctrl, sub, copy);
  }

  lemma TailParts(h: seq<byte>, a: seq<byte>, b: seq<byte>, c: seq<byte>)
    ensures var f := h + (a + (b + c));
      && f[|h|..|h| + |a|] == a && f[|h| + |a|..|h| + |a| + |b|] == b && f[|h| + |a| + |b|..] == c
  {
  }

  /** A three-stream file is read back exactly when no packed stream is empty. */
  lemma ThreeStreamReadBack(codec: Codec, ctrl: seq<byte>, sub: seq<byte>, copy: seq<byte>, newLen: u64)
    requires |ctrl| < TWO_64 && |sub| < TWO_64
    ensures var f := ThreeStreamFile(ctrl, sub, copy, newLen);
      var info := GetInfo(f);
      if copy == [] then info.None?
      else
        && info == Some(Info(false, HEAD_LEN, |ctrl|, |sub|, newLen))
        && Feeds(codec, info.value, f)
           == if ctrl == [] || sub == [] then None
              else Some(Three(codec.unpack(ctrl), codec.unpack(sub), codec.unpack(copy)))
  {
    hide Word, ReadUInt64, ThreeStreamFile;
    ThreeStreamParts(ctrl, sub, copy, newLen);
    ReadWord(|ctrl|);
    ReadWord(|sub|);
    ReadWord(newLen);
  }

  lemma OneStreamReadBack(codec: Codec, all: seq<byte>, newLen: u64)
    ensures var f := OneStreamFile(all, newLen);
      var info := GetInfo(f);
      if |all| < 8 then info.None?
      else
        && info == Some(Info(true, ENDSLEY_HEAD_LEN, 0, 0, newLen))
        && Feeds(codec, info.value, f) == Some(One(codec.unpack(all)))
  {
    hide Word, ReadUInt64;
    var f := OneStreamFile(all, newLen);
    assert f[..8][0] == ENDSLEY_TYPE[0] != BSDIFF_TYPE[0];
    assert f[..16] == ENDSLEY_TYPE;
    assert f[16..24] == Word(newLen);
    assert f[24..] == all;
    ReadWord(newLen);
  }

  // --- end to end ----------------------------------------------------------------------------------------

  /** The packed streams of a list of covers. */
  datatype Packed = Packed(ctrl: seq<byte>, sub: seq<byte>, copy: seq<byte>, all: seq<byte>)

  ghost function Pack(codec: Codec, cs: seq<Cover>, oldData: seq<byte>, newData: seq<byte>, isZero: bool): Packed
    requires Fitting(cs, oldData, newData, isZero) && Short(cs)
  {
    Packed(codec.pack(Ctrl(cs)), codec.pack(Sub(cs, oldData, newData, isZero)),
           codec.pack(Gaps(cs, |oldData|, newData)), codec.pack(Interlaced(cs, oldData, newData, isZero)))
  }

  /** What the decompressor makes of the packed streams patches as the streams do. */
  lemma {:induction false} PaddedFeeds(codec: Codec, cs: seq<Cover>, oldData: seq<byte>, newData: seq<byte>, isZero: bool)
    requires codec.Valid() && Fitting(cs, oldData, newData, isZero) && Short(cs)
    requires Patch(oldData, |newData|,
                   Begin(Three(Ctrl(cs), Sub(cs, oldData, newData, isZero), Gaps(cs, |oldData|, newData)))) == Some(newData)
    requires Patch(oldData, |newData|, Begin(One(Interlaced(cs, oldData, newData, isZero)))) == Some(newData)
    ensures var p := Pack(codec, cs, oldData, newData, isZero);
      && Patch(oldData, |newData|, Begin(Three(codec.unpack(p.ctrl), codec.unpack(p.sub), codec.unpack(p.copy))))
         == Some(newData)
      && Patch(oldData, |newData|, Begin(One(codec.unpack(p.all)))) == Some(newData)
  {
    hide Patch, Ctrl, Sub, Gaps, Interlaced, Short, Chain;
    var p := Pack(codec, cs, oldData, newData, isZero);
    PatchExtends(oldData, |newData|,
                 Begin(Three(Ctrl(cs), Sub(cs, oldData, newData, isZero), Gaps(cs, |oldData|, newData))),
                 Begin(Three(codec.unpack(p.ctrl), codec.unpack(p.sub), codec.unpack(p.copy))));
    PatchExtends(oldData, |newData|, Begin(One(Interlaced(cs, oldData, newData, isZero))),
                 Begin(One(codec.unpack(p.all))));
  }

  /** For every compressor: the three-stream file patches the old data to the new data exactly when
      the compressor leaves no stream empty, the interlaced file exactly when its stream has eight
      bytes or more; otherwise the file is refused. */
  lemma {:induction false} FileRoundTrip(codec: Codec, covers: seq<Cover>, oldData: seq<byte>, newData: seq<byte>, isZero: bool)
    requires codec.Valid() && |newData| < TWO_63 && |oldData| < TWO_63
    requires Sorted(covers, 0, |newData|) && InOld(covers, |oldData|)
    requires isZero ==> AllMatching(covers, oldData, newData)
    ensures var cs := BsdiffCovers(covers, |newData|);
      && Fitting(cs, oldData, newData, isZero) && Short(cs)
      && var p := Pack(codec, cs, oldData, newData, isZero);
      && (|p.ctrl| < TWO_64 && |p.sub| < TWO_64 ==>
            PatchFile(codec, ThreeStreamFile(p.ctrl, p.sub, p.copy, |newData|), oldData, |newData|)
            == if p.ctrl == [] || p.sub == [] || p.copy == [] then None else Some(newData))
      && PatchFile(codec, OneStreamFile(p.all, |newData|), oldData, |newData|)
         == if |p.all| < 8 then None else Some(newData)
  {
    hide Patch, Sorted, InOld, AllMatching, Ctrl, Sub, Gaps, Interlaced, BsdiffCovers, Feeds, GetInfo, Fitting, Short,
      ThreeStreamFile, OneStreamFile;
    StreamsRoundTrip(covers, oldData, newData, isZero);
    var cs := BsdiffCovers(covers, |newData|);
    var p := Pack(codec, cs, oldData, newData, isZero);
    PaddedFeeds(codec, cs, oldData, newData, isZero);
    if |p.ctrl| < TWO_64 && |p.sub| < TWO_64 {
      ThreeStreamReadBack(codec, p.ctrl, p.sub, p.copy, |newData|);
    }
    OneStreamReadBack(codec, p.all, |newData|);
  }

  /** The sub stream is packed to nothing, and the three-stream file is refused. */
  ghost predicate RefusedForSub(codec: Codec, cs: seq<Cover>, oldData: seq<byte>, newData: seq<byte>)
    requires Fitting(cs, oldData, newData, false) && Short(cs)
  {
    var p := Pack(codec, cs, oldData, newData, false);
    && p.sub == []
    && (|p.ctrl| < TWO_64 ==>
          PatchFile(codec, ThreeStreamFile(p.ctrl, p.sub, p.copy, |newData|), oldData, |newData|) == None)
  }

  /** Such a refusal: without covers there are no sub bytes, and a compressor that makes nothing of
      nothing, such as one that keeps its input as it is, leaves that stream empty. */
  lemma {:induction false} NoCoversRefused(codec: Codec, covers: seq<Cover>, oldData: seq<byte>, newData: seq<byte>)
    requires codec.Valid() && codec.pack([]) == [] && covers == []
    requires |newData| < TWO_63 && |oldData| < TWO_63
    ensures var cs := BsdiffCovers(covers, |newData|);
      Fitting(cs, oldData, newData, false) && Short(cs) && RefusedForSub(codec, cs, oldData, newData)
  {
    var cs := BsdiffCovers(covers, |newData|);
    assert |cs| == 2 && cs[0] == Cover(0, 0, 0);
    hide PatchFile, ThreeStreamFile, OneStreamFile, Ctrl, Sub, Gaps, Interlaced, Fitting, Short, BsdiffCovers;
    FileRoundTrip(codec, covers, oldData, newData, false);
    NoSubBytes(cs, oldData, newData);
  }

  lemma {:induction false} NoSubBytes(cs: seq<Cover>, oldData: seq<byte>, newData: seq<byte>)
    requires Fitting(cs, oldData, newData, false) && |cs| == 2 && cs[0].length == 0
    ensures Sub(cs, oldData, newData, false) == []
  {
    hide SubOf, Sorted, InOld;
    ChainNext(cs, |newData|, |oldData|);
    assert |cs[1..]| == 1;
  }
}
