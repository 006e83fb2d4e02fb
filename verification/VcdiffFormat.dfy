/**
 The byte format of target windows and of the file header: what `serialize_vcdiff` writes without
 compression, and how `_vcpatch_window` and `getVcDiffInfo` read it.
 */
module VcdiffFormat {
  import opened Bytes
  import opened PackedUInt
  import opened VcDecoder

  const VCD_SOURCE: byte := 1
  const VCD_TARGET: byte := 2
  const VCD_ADLER32: byte := 4

  // --- writing ---------------------------------------------------------------------------------

  function SrcHeader(srcPos: nat, srcLen: nat): seq<byte> {
    if srcLen > 0 then [VCD_SOURCE] + Pack(srcLen) + Pack(srcPos) else [0]
  }

  function DeltaHead(targetLen: nat, dataLen: nat, instLen: nat, addrLen: nat): seq<byte> {
    Pack(targetLen) + [0] + Pack(dataLen) + Pack(instLen) + Pack(addrLen)
  }

  function Delta(targetLen: nat, data: seq<byte>, inst: seq<byte>, addr: seq<byte>): seq<byte> {
    var head := DeltaHead(targetLen, |data|, |inst|, |addr|);
    Pack(|head| + |data| + |inst| + |addr|) + head + data + inst + addr
  }

  // --- reading ---------------------------------------------------------------------------------

  /** How the window's Adler-32 checksum is stored: not at all, in four bytes, or packed (the format
      of Google's open-vcdiff). */
  datatype Checksum = NoSum | FourBytes | Packed

  /** Where the source window lies: nowhere, in the old data, or in the output so far. */
  datatype Source = Source(kind: byte, srcPos: nat, srcLen: nat, sum: Checksum)

  function SourceLimit(kind: byte, oldLen: nat, outLen: nat): nat {
    if kind == 0 then 0 else if kind == VCD_SOURCE then oldLen else outLen
  }

  /** The window indicator and, when there is a source window, its length and position. */
  function ParseIndicator(diff: seq<byte>, google: bool): (r: Option<(Source, seq<byte>)>)
    ensures r.Some? ==> |r.value.1| < |diff|
    ensures r.Some? && r.value.0.kind == 0 ==> r.value.0.srcPos == 0 && r.value.0.srcLen == 0
  {
    if diff == [] then None
    else
      var adler := (diff[0] / VCD_ADLER32) % 2 == 1;
      var sum := if !adler then NoSum else if google then Packed else FourBytes;
      var kind: byte := if adler then diff[0] - VCD_ADLER32 else diff[0];
      if kind == 0 then Some((Source(0, 0, 0, sum), diff[1..]))
      else if kind == VCD_SOURCE || kind == VCD_TARGET then
        var (srcLen, r1) :- Unpack(diff[1..]);
        var (srcPos, r2) :- Unpack(r1);
        Some((Source(kind, srcPos, srcLen, sum), r2))
      else None
  }

  /** The same with the check that the source window lies in the old data or the output. */
  function ParseSource(diff: seq<byte>, google: bool, oldLen: nat, outLen: nat): (r: Option<(Source, seq<byte>)>)
    ensures r.Some? ==> |r.value.1| < |diff|
    ensures r.Some? ==> r.value.0.srcPos + r.value.0.srcLen <= SourceLimit(r.value.0.kind, oldLen, outLen)
  {
    var (s, rest) :- ParseIndicator(diff, google);
    if s.srcPos + s.srcLen >= TWO_64 || s.srcPos + s.srcLen > SourceLimit(s.kind, oldLen, outLen) then None
    else Some((s, rest))
  }

  /** The checksum is read over, not checked; a packed one must be a 32-bit value. */
  function SkipChecksum(s: seq<byte>, sum: Checksum): (r: Option<seq<byte>>)
    ensures r.Some? ==> |r.value| <= |s|
  {
    match sum
    case NoSum => Some(s)
    case FourBytes => if |s| < 4 then None else Some(s[4..])
    case Packed =>
      var (v, rest) :- Unpack(s);
      if v / 0x1_0000_0000 > 0 then None else Some(rest)
  }

  /** The four lengths and the indicator byte behind the delta length; the checksum behind them. */
  function ParseLengths(r0: seq<byte>, sum: Checksum): (r: Option<((u64, u64, u64, u64), seq<byte>)>)
    ensures r.Some? ==> |r.value.1| < |r0|
  {
    var (targetLen, r1) :- Unpack(r0);
    if r1 == [] then None
    else
      var (dataLen, r2) :- Unpack(r1[1..]);
      var (instLen, r3) :- Unpack(r2);
      var (addrLen, r4) :- Unpack(r3);
      var rest :- SkipChecksum(r4, sum);
      Some(((targetLen, dataLen, instLen, addrLen), rest))
  }

  datatype Sections = Sections(targetLen: nat, data: seq<byte>, inst: seq<byte>, addr: seq<byte>)

  /** The three sections cut out of the bytes behind the lengths. */
  function Cut(targetLen: nat, body: seq<byte>, dataLen: nat, instLen: nat): Sections
    requires dataLen + instLen <= |body|
  {
    Sections(targetLen, body[..dataLen], body[dataLen..dataLen + instLen], body[dataLen + instLen..])
  }

  function ParseDelta(diff: seq<byte>, sum: Checksum): (r: Option<(Sections, seq<byte>)>)
    ensures r.Some? ==> |r.value.1| < |diff|
  {
    var (deltaLen, r0) :- Unpack(diff);
    if deltaLen > |r0| then None
    else
      var ((targetLen, dataLen, instLen, addrLen), r1) :- ParseLengths(r0, sum);
      if deltaLen != (|r0| - |r1|) + dataLen + instLen + addrLen then None
      else
        Some((Cut(targetLen, r1[..dataLen + instLen + addrLen], dataLen, instLen),
              r1[dataLen + instLen + addrLen..]))
  }

  /** One window: its source is the old data or the output written by the windows before. */
  function DecodeWindow(diff: seq<byte>, google: bool, oldData: seq<byte>, out: seq<byte>): (r: Option<(seq<byte>, seq<byte>)>)
    ensures r.Some? ==> |r.value.1| < |diff|
  {
    var (src, r1) :- ParseSource(diff, google, |oldData|, |out|);
    var (sec, r2) :- ParseDelta(r1, src.sum);
    var srcData := if src.kind == VCD_TARGET then out else oldData;
    var w := Window(srcData, src.srcPos, src.srcLen, sec.targetLen);
    var st :- Loop(w, Begin(out, sec.data, sec.inst, sec.addr));
    Some((st.out, r2))
  }

  /** All windows of a diff, without its file header. */
  function DecodeWindows(diff: seq<byte>, google: bool, oldData: seq<byte>, out: seq<byte>): Option<seq<byte>>
    decreases |diff|
  {
    if diff == [] then Some(out)
    else
      var (out1, rest) :- DecodeWindow(diff, google, oldData, out);
      DecodeWindows(rest, google, oldData, out1)
  }

  // --- reading undoes writing --------------------------------------------------------------------

  lemma {:induction false} ParseSrcHeader(srcPos: nat, srcLen: nat, oldLen: nat, outLen: nat, rest: seq<byte>)
    requires srcPos + srcLen <= oldLen < TWO_64
    requires srcLen == 0 ==> srcPos == 0
    ensures ParseSource(SrcHeader(srcPos, srcLen) + rest, false, oldLen, outLen)
         == Some((Source(if srcLen > 0 then VCD_SOURCE else 0, srcPos, srcLen, NoSum), rest))
  {
    hide Pack, Unpack;
    var diff := SrcHeader(srcPos, srcLen) + rest;
    if srcLen > 0 {
      assert diff[1..] == Pack(srcLen) + (Pack(srcPos) + rest);
      UnpackPack(srcLen, Pack(srcPos) + rest);
      UnpackPack(srcPos, rest);
    } else {
      assert diff[1..] == rest;
    }
  }

  lemma {:induction false} ParseDeltaHead(targetLen: u64, dataLen: u64, instLen: u64, addrLen: u64, rest: seq<byte>)
    ensures ParseLengths(DeltaHead(targetLen, dataLen, instLen, addrLen) + rest, NoSum)
         == Some(((targetLen, dataLen, instLen, addrLen), rest))
  {
    var r3 := Pack(addrLen) + rest;
    var r2 := Pack(instLen) + r3;
    var r1 := Pack(dataLen) + r2;
    var r0: seq<byte> := [0] + r1;
    assert DeltaHead(targetLen, dataLen, instLen, addrLen) + rest == Pack(targetLen) + r0;
    assert r0[1..] == r1;
    UnpackPack(targetLen, r0);
    UnpackPack(dataLen, r2);
    UnpackPack(instLen, r3);
    UnpackPack(addrLen, rest);
  }

  lemma CutThree(targetLen: nat, a: seq<byte>, b: seq<byte>, c: seq<byte>, rest: seq<byte>)
    ensures var s := a + (b + (c + rest));
      && s[|a| + |b| + |c|..] == rest
      && Cut(targetLen, s[..|a| + |b| + |c|], |a|, |b|) == Sections(targetLen, a, b, c)
  {
    var s := a + (b + (c + rest));
    assert s[..|a| + |b| + |c|] == a + (b + c);
    assert (a + (b + c))[|a|..|a| + |b|] == b;
    assert (a + (b + c))[|a| + |b|..] == c;
  }

  lemma {:induction false} ParseDeltaBytes(targetLen: u64, data: seq<byte>, inst: seq<byte>, addr: seq<byte>, rest: seq<byte>)
    requires |data| < TWO_57 && |inst| < TWO_57 && |addr| < TWO_57
    ensures ParseDelta(Delta(targetLen, data, inst, addr) + rest, NoSum)
         == Some((Sections(targetLen, data, inst, addr), rest))
  {
    hide Pack, Unpack, DeltaHead, ParseLengths, Cut;
    var head := DeltaHead(targetLen, |data|, |inst|, |addr|);
    HeadLength(targetLen, |data|, |inst|, |addr|);
    var tail := data + (inst + (addr + rest));
    var deltaLen: u64 := |head| + |data| + |inst| + |addr|;
    assert Delta(targetLen, data, inst, addr) + rest == Pack(deltaLen) + (head + tail);
    UnpackPack(deltaLen, head + tail);
    ParseDeltaHead(targetLen, |data|, |inst|, |addr|, tail);
    CutThree(targetLen, data, inst, addr, rest);
  }

  lemma HeadLength(targetLen: u64, dataLen: u64, instLen: u64, addrLen: u64)
    ensures |DeltaHead(targetLen, dataLen, instLen, addrLen)| <= 41
  {
    PackLength(targetLen);
    PackLength(dataLen);
    PackLength(instLen);
    PackLength(addrLen);
  }
}
