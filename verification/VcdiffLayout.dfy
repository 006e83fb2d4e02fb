/**
 The bytes of a VCDIFF file, told from the numbers and sections they are read as: the file header and the
 windows that are written, and all windows that can be read, also those that are never written
 (RUN, windows copied from earlier output, checksums, interleaved sections).
 */
module VcdiffLayout {
  import opened Bytes
  import opened PackedUInt
  import opened AddrCache
  import opened AddrHistory
  import opened InstCoder
  import opened Covers
  import opened WindowCodes
  import opened WindowContents
  import opened VcDecoder
  import opened VcdiffFormat
  import opened VcdiffRoundTrip
  import opened VcdiffFile
  import CodeTable

  /** The packed integers `vs` follow each other in `s`; `rest` is behind them. */
  predicate Numbers(s: seq<byte>, vs: seq<nat>, rest: seq<byte>)
    decreases |vs|
  {
    if vs == [] then s == rest
    else Unpack(s).Some? && Unpack(s).value.0 == vs[0] && Numbers(Unpack(s).value.1, vs[1..], rest)
  }

  lemma {:induction false} PackedFirst(v: u64, s: seq<byte>, vs: seq<nat>, rest: seq<byte>)
    requires Numbers(s, vs, rest)
    ensures Numbers(Pack(v) + s, [v] + vs, rest)
  {
    hide Pack, Unpack;
    UnpackPack(v, s);
    assert ([v] + vs)[1..] == vs;
  }

  lemma {:induction false} PackedOne(v: u64, rest: seq<byte>)
    ensures Numbers(Pack(v) + rest, [v], rest)
  {
    hide Pack, Unpack;
    UnpackPack(v, rest);
  }

  lemma {:induction false} PackedThree(a: u64, b: u64, c: u64, rest: seq<byte>)
    ensures Numbers(Pack(a) + (Pack(b) + (Pack(c) + rest)), [a, b, c], rest)
  {
    hide Pack, Numbers;
    PackedOne(c, rest);
    PackedFirst(b, Pack(c) + rest, [c], rest);
    assert [b] + [c] == [b, c];
    PackedFirst(a, Pack(b) + (Pack(c) + rest), [b, c], rest);
    assert [a] + [b, c] == [a, b, c];
  }

  // --- the file header -------------------------------------------------------------------------------

  /** The file header as the specification of the source spells it. */
  lemma FileHead()
    ensures |FILE_HEAD| == 23 && FILE_HEAD[..6] == [0xD6, 0xC3, 0xC4, 0, 4, 17]
    ensures forall i :: 0 <= i < 17 ==> FILE_HEAD[6 + i] == "$hdiffz-VCDIFF&#a"[i] as int
  {
  }

  /** What stands between the indicator byte of a file and its windows. */
  function HeadOptions(indicator: byte, compressor: byte, tag: seq<byte>): seq<byte> {
    (if indicator % 2 == 1 then [compressor] else [])
    + if (indicator / 4) % 2 == 1 then Pack(|tag|) + tag else []
  }

  /** Every file header, read: it is refused for another version than 0 and 'S' or with a code table of
      its own, and by the size check. */
  lemma {:induction false} HeaderMeans(version: byte, indicator: byte, compressor: byte, tag: seq<byte>, windows: seq<byte>)
    requires |tag| < TWO_64 && ((indicator / 4) % 2 == 0 ==> tag == [])
    ensures var options := HeadOptions(indicator, compressor, tag);
      ParseFile([0xD6, 0xC3, 0xC4, version, indicator] + options + windows)
      == if (version != 0 && version != 83) || (indicator / 2) % 2 == 1 || 5 + |options| > |tag| + |windows| then None
         else Some(Info(version == 83, if indicator % 2 == 1 then compressor else 0, |tag|, windows))
  {
    hide Pack, Unpack;
    var options := HeadOptions(indicator, compressor, tag);
    var head: seq<byte> := [0xD6, 0xC3, 0xC4, version, indicator];
    var diff := head + options + windows;
    assert diff[..3] == FILE_TYPE && diff[3] == version && diff[4] == indicator;
    var r2 := (if (indicator / 4) % 2 == 1 then Pack(|tag|) + tag else []) + windows;
    var r1 := options + windows;
    assert diff[5..] == r1;
    assert indicator % 2 == 1 ==> r1[0] == compressor && r1[1..] == r2;
    assert indicator % 2 == 0 ==> r1 == r2;
    TagMeans(indicator, tag, windows, |diff|, version == 83, if indicator % 2 == 1 then compressor else 0);
  }

  lemma {:induction false} TagMeans(indicator: byte, tag: seq<byte>, windows: seq<byte>, fileLen: nat, google: bool,
                                    compressor: byte)
    requires |tag| < TWO_64 && ((indicator / 4) % 2 == 0 ==> tag == [])
    requires |(if (indicator / 4) % 2 == 1 then Pack(|tag|) + tag else []) + windows| <= fileLen
    ensures ParseTag((if (indicator / 4) % 2 == 1 then Pack(|tag|) + tag else []) + windows, fileLen, google, compressor,
                     (indicator / 4) % 2 == 1)
         == if fileLen - |windows| > |tag| + |windows| then None
            else Some(Info(google, compressor, |tag|, windows))
  {
    hide Pack, Unpack;
    if (indicator / 4) % 2 == 1 {
      Regroup(Pack(|tag|), tag, windows);
      UnpackPack(|tag|, tag + windows);
      assert (tag + windows)[|tag|..] == windows;
    } else {
      assert [] + windows == windows;
    }
  }

  // --- the windows that are written -----------------------------------------------------------------------

  /** `s` holds the lengths and sections of a window in front of `rest`. */
  ghost predicate IsDelta(s: seq<byte>, delta: seq<byte>, lens: seq<byte>, targetLen: nat,
                          data: seq<byte>, inst: seq<byte>, addr: seq<byte>, rest: seq<byte>)
  {
    && |rest| <= |delta| && Numbers(s, [|delta| - |rest|], delta)
    && Numbers(delta, [targetLen], lens) && lens != [] && lens[0] == 0
    && Numbers(lens[1..], [|data|, |inst|, |addr|], data + (inst + (addr + rest)))
  }

  lemma {:induction false} DeltaLayout(targetLen: u64, data: seq<byte>, inst: seq<byte>, addr: seq<byte>, rest: seq<byte>)
    returns (delta: seq<byte>, lens: seq<byte>)
    requires |data| < TWO_57 && |inst| < TWO_57 && |addr| < TWO_57
    ensures IsDelta(Delta(targetLen, data, inst, addr) + rest, delta, lens, targetLen, data, inst, addr, rest)
  {
    hide Pack, Numbers;
    HeadLength(targetLen, |data|, |inst|, |addr|);
    var body := data + (inst + (addr + rest));
    lens := [0] + (Pack(|data|) + (Pack(|inst|) + (Pack(|addr|) + body)));
    delta := Pack(targetLen) + lens;
    PackedThree(|data|, |inst|, |addr|, body);
    assert lens[1..] == Pack(|data|) + (Pack(|inst|) + (Pack(|addr|) + body));
    PackedOne(targetLen, lens);
    DeltaForm(targetLen, data, inst, addr, rest, delta);
    PackedOne(|delta| - |rest|, delta);
  }

  lemma DeltaForm(targetLen: u64, data: seq<byte>, inst: seq<byte>, addr: seq<byte>, rest: seq<byte>, delta: seq<byte>)
    requires delta == Pack(targetLen)
             + ([0] + (Pack(|data|) + (Pack(|inst|) + (Pack(|addr|) + (data + (inst + (addr + rest)))))))
    requires |data| < TWO_57 && |inst| < TWO_57 && |addr| < TWO_57
    ensures |rest| <= |delta| < |rest| + TWO_64
    ensures Delta(targetLen, data, inst, addr) + rest == Pack(|delta| - |rest|) + delta
  {
    hide Pack;
    HeadLength(targetLen, |data|, |inst|, |addr|);
    var head := DeltaHead(targetLen, |data|, |inst|, |addr|);
    assert delta == head + data + inst + addr + rest;
    assert |delta| - |rest| == |head| + |data| + |inst| + |addr|;
  }

  /** A window as it is written, in front of anything: its numbers and sections in their order. The data
      section is the new bytes under no cover; the instructions are those that write the covers. */
  lemma {:induction false} WindowLayout(cs: seq<Cover>, end: nat, e: Env, newData: seq<byte>, rest: seq<byte>)
    returns (body: seq<byte>, delta: seq<byte>, lens: seq<byte>, codes: seq<VcCode>)
    requires e.targetPos <= end <= |newData| < TWO_64 && end - e.targetPos <= MAX_WINDOW
    requires Ordered(cs, e.targetPos, |newData|) && Fits(cs, end)
    requires e.srcLen < TWO_64 && e.srcPos < TWO_64
    ensures WritesCovers(codes, cs, e.targetPos, end, e, []) && ValidCodes(codes)
    ensures var s := WindowBytes(cs, end, e, newData) + rest;
      && s != [] && s[0] == (if e.srcLen > 0 then 1 else 0)
      && (if e.srcLen > 0 then Numbers(s[1..], [e.srcLen, e.srcPos], body) else s[1..] == body)
      && IsDelta(body, delta, lens, end - e.targetPos, Uncovered(cs, e.targetPos, end, newData),
                 InstOf(codes), AddrOf(codes), rest)
  {
    hide Codes, GapBytes, Uncovered, InstOf, AddrOf, Delta, Ordered, Fits, Pack, Numbers, After, WritesCovers, IsDelta;
    codes := Codes(cs, e.targetPos, end, e, EmptyCache());
    SectionBounds(cs, end, e, newData);
    WindowStart();
    CodesWriteCovers(cs, e.targetPos, end, e, [], |newData|);
    GapIsUncovered(cs, e.targetPos, end, newData);
    var data, inst, addr := GapBytes(cs, e.targetPos, end, newData), InstOf(codes), AddrOf(codes);
    var d := Delta(end - e.targetPos, data, inst, addr);
    body := d + rest;
    delta, lens := DeltaLayout(end - e.targetPos, data, inst, addr, rest);
    var head := SrcHeader(e.srcPos, e.srcLen);
    Regroup(head, d, rest);
    if e.srcLen > 0 {
      PackedOne(e.srcPos, body);
      PackedFirst(e.srcLen, Pack(e.srcPos) + body, [e.srcPos], body);
      assert [e.srcLen] + [e.srcPos] == [e.srcLen, e.srcPos];
      assert (head + body)[1..] == Pack(e.srcLen) + (Pack(e.srcPos) + body);
    } else {
      assert (head + body)[1..] == body;
    }
  }

  // --- the windows that can be read -----------------------------------------------------------------------

  /** A window whose indicator is not one of the six known ones is refused. */
  lemma UnknownIndicator(s: seq<byte>, google: bool, oldData: seq<byte>, out: seq<byte>)
    requires s != [] && s[0] !in {0, 1, 2, 4, 5, 6}
    ensures DecodeWindow(s, google, oldData, out) == None
  {
  }

  /** The checksum in front of `body`: four bytes, or in the other version one packed 32-bit number. */
  predicate IsChecksum(s: seq<byte>, adler: bool, google: bool, body: seq<byte>) {
    if !adler then s == body
    else if google then Unpack(s).Some? && Unpack(s).value.0 < 0x1_0000_0000 && Unpack(s).value.1 == body
    else |s| >= 4 && s[4..] == body
  }

  /** Every window that can be read: the numbers in front of its sections, a checksum that is skipped, and
      the source of its COPYs, which is the old data for the indicator 1 and the output so far for 2. It is
      refused when the source window is not inside. */
  lemma {:induction false} WindowMeans(s: seq<byte>, google: bool, oldData: seq<byte>, out: seq<byte>, kind: nat,
                                       adler: bool, srcPos: nat, srcLen: nat, body: seq<byte>, delta: seq<byte>,
                                       lens: seq<byte>, sections: seq<byte>, targetLen: nat,
                                       data: seq<byte>, inst: seq<byte>, addr: seq<byte>, rest: seq<byte>)
    requires kind < 3 && s != [] && s[0] == kind + (if adler then 4 else 0)
    requires if kind == 0 then s[1..] == body && srcPos == srcLen == 0 else Numbers(s[1..], [srcLen, srcPos], body)
    requires |rest| <= |delta| && Numbers(body, [|delta| - |rest|], delta)
    requires Numbers(delta, [targetLen], lens) && lens != []
    requires Numbers(lens[1..], [|data|, |inst|, |addr|], sections)
    requires IsChecksum(sections, adler, google, data + (inst + (addr + rest)))
    ensures var space := if kind == 0 then [] else if kind == 1 then oldData else out;
      DecodeWindow(s, google, oldData, out)
      == if srcPos + srcLen >= TWO_64 || srcPos + srcLen > |space| then None
         else match Loop(Window(if kind == 2 then out else oldData, srcPos, srcLen, targetLen), Begin(out, data, inst, addr))
              case None => None
              case Some(st) => Some((st.out, rest))
  {
    hide Unpack, Loop;
    var sum := if !adler then NoSum else if google then Packed else FourBytes;
    assert ParseIndicator(s, google) == Some((Source(kind, srcPos, srcLen, sum), body)) by {
      hide ParseDelta;
      if kind != 0 {
        TwoNumbers(s[1..], srcLen, srcPos, body);
      }
    }
    assert ParseDelta(body, sum) == Some((Sections(targetLen, data, inst, addr), rest)) by {
      DeltaMeans(google, adler, body, delta, lens, sections, targetLen, data, inst, addr, rest);
    }
  }

  lemma {:induction false} OneNumber(s: seq<byte>, a: nat, rest: seq<byte>)
    requires Numbers(s, [a], rest)
    ensures Unpack(s) == Some((a, rest))
  {
    hide Unpack;
    assert [a][1..] == [];
  }

  lemma {:induction false} TwoNumbers(s: seq<byte>, a: nat, b: nat, rest: seq<byte>)
    requires Numbers(s, [a, b], rest)
    ensures Unpack(s).Some? && Unpack(s).value.0 == a && Unpack(Unpack(s).value.1) == Some((b, rest))
  {
    hide Unpack;
    assert [a, b][1..] == [b];
    OneNumber(Unpack(s).value.1, b, rest);
  }

  lemma {:induction false} ThreeNumbers(s: seq<byte>, a: nat, b: nat, c: nat, rest: seq<byte>)
    requires Numbers(s, [a, b, c], rest)
    ensures Unpack(s).Some? && Unpack(s).value.0 == a
    ensures var s1 := Unpack(s).value.1;
      Unpack(s1).Some? && Unpack(s1).value.0 == b && Unpack(Unpack(s1).value.1) == Some((c, rest))
  {
    hide Unpack;
    assert [a, b, c][1..] == [b, c];
    TwoNumbers(Unpack(s).value.1, b, c, rest);
  }

  lemma {:induction false} DeltaMeans(google: bool, adler: bool, body: seq<byte>, delta: seq<byte>, lens: seq<byte>,
                                      sections: seq<byte>, targetLen: nat,
                                      data: seq<byte>, inst: seq<byte>, addr: seq<byte>, rest: seq<byte>)
    requires |rest| <= |delta| && Numbers(body, [|delta| - |rest|], delta)
    requires Numbers(delta, [targetLen], lens) && lens != []
    requires Numbers(lens[1..], [|data|, |inst|, |addr|], sections)
    requires IsChecksum(sections, adler, google, data + (inst + (addr + rest)))
    ensures ParseDelta(body, if !adler then NoSum else if google then Packed else FourBytes)
         == Some((Sections(targetLen, data, inst, addr), rest))
  {
    hide Unpack, Numbers, Cut;
    OneNumber(body, |delta| - |rest|, delta);
    OneNumber(delta, targetLen, lens);
    ThreeNumbers(lens[1..], |data|, |inst|, |addr|, sections);
    var sum := if !adler then NoSum else if google then Packed else FourBytes;
    assert ParseLengths(delta, sum)
        == Some(((targetLen, |data|, |inst|, |addr|), data + (inst + (addr + rest))));
    CutThree(targetLen, data, inst, addr, rest);
  }

  /** A window is refused when its delta length is not that of the lengths, the checksum and the sections. */
  lemma {:induction false} WrongLength(google: bool, adler: bool, body: seq<byte>, deltaLen: nat, delta: seq<byte>,
                                       lens: seq<byte>, sections: seq<byte>, behind: seq<byte>,
                                       targetLen: nat, dataLen: nat, instLen: nat, addrLen: nat)
    requires Numbers(body, [deltaLen], delta) && Numbers(delta, [targetLen], lens) && lens != []
    requires Numbers(lens[1..], [dataLen, instLen, addrLen], sections)
    requires IsChecksum(sections, adler, google, behind)
    requires deltaLen != |delta| - |behind| + dataLen + instLen + addrLen || deltaLen > |delta|
    ensures ParseDelta(body, if !adler then NoSum else if google then Packed else FourBytes) == None
  {
    hide Unpack, Numbers, Cut;
    OneNumber(body, deltaLen, delta);
    OneNumber(delta, targetLen, lens);
    ThreeNumbers(lens[1..], dataLen, instLen, addrLen, sections);
    var sum := if !adler then NoSum else if google then Packed else FourBytes;
    assert ParseLengths(delta, sum) == Some(((targetLen, dataLen, instLen, addrLen), behind));
  }

  // --- the instructions that can be read --------------------------------------------------------------------

  /** The section from which a RUN or ADD takes its bytes. */
  function Data(st: State): seq<byte> {
    if st.interleaved then st.inst else st.data
  }

  function WithData(st: State, rest: seq<byte>): State {
    if st.interleaved then st.(inst := rest) else st.(data := rest)
  }

  /** The section from which a COPY takes its address. */
  function Addresses(st: State): seq<byte> {
    if st.interleaved then st.inst else st.addr
  }

  function WithAddresses(st: State, rest: seq<byte>): State {
    if st.interleaved then st.(inst := rest) else st.(addr := rest)
  }

  /** A RUN repeats one byte of the data, an ADD takes as many bytes as its size; both are refused without
      room in the target window or when the data ends. */
  lemma RunMeans(w: Window, n: u64, st: State)
    requires w.Valid() && st.Valid()
    ensures DoOp(w, Op(2, n), st)
         == if st.here + n > w.targetLen || Data(st) == [] then None
            else Some(WithData(st, Data(st)[1..]).(here := st.here + n, out := st.out + seq(n, _ => Data(st)[0])))
  {
    if st.here + n <= w.targetLen && Data(st) != [] {
      var v := Data(st)[0];
      assert Data(st)[..1][0] == v;
      assert Fill(v, n) == seq(n, _ => v);
      assert seq(n, _ => Data(st)[0]) == seq(n, _ => v);
    }
  }

  lemma AddMeans(w: Window, n: u64, st: State)
    requires w.Valid() && st.Valid()
    ensures DoOp(w, Op(1, n), st)
         == if st.here + n > w.targetLen || |Data(st)| < n then None
            else Some(WithData(st, Data(st)[n..]).(here := st.here + n, out := st.out + Data(st)[..n]))
  {
  }

  /** A COPY reads its address from the addresses: a packed integer, or one byte in the modes of the
      768 addresses. */
  lemma AddressMeans(mode: nat, st: State)
    requires st.Valid() && mode < 9
    ensures TakeAddr(st, mode)
         == if mode >= 6 then
              if Addresses(st) == [] then None
              else Some((Addresses(st)[0], WithAddresses(st, Addresses(st)[1..])))
            else
              match Unpack(Addresses(st))
              case None => None
              case Some((sub, rest)) => Some((sub, WithAddresses(st, rest)))
  {
    hide Unpack;
  }

  /** The instruction byte is an index into the table; a size that the table leaves open follows it. */
  lemma {:induction false} IndexMeans(w: Window, st: State, n: u64, rest: seq<byte>)
    requires w.Valid() && st.Valid() && st.here < w.targetLen && st.inst != []
    requires var p := CodeTable.Lookup(st.inst[0]);
      && p.inst2 == 0
      && if p.size1 == 0 then Unpack(st.inst[1..]) == Some((n, rest)) else n == p.size1 && rest == st.inst[1..]
    ensures CodeTable.Lookup(st.inst[0]).inst1 < CodeTable.COPY + CodeTable.MODES
    ensures Loop(w, st)
         == match DoOp(w, Op(CodeTable.Lookup(st.inst[0]).inst1, n), st.(inst := rest))
            case None => None
            case Some(st1) => Loop(w, st1)
  {
    hide Unpack, DoOp, CodeTable.Lookup;
    CodeTable.TableIsStandard(st.inst[0]);
  }

  // --- two windows that the writer never makes -----------------------------------------------------------------

  lemma {:induction false} AlonePacked(n: u64)
    ensures Unpack(Pack(n)) == Some((n, []))
  {
    hide Pack, Unpack;
    UnpackPack(n, []);
    assert Pack(n) + [] == Pack(n);
  }

  lemma {:induction false} LoopEnds(w: Window, st: State)
    requires w.Valid() && st.Valid() && st.here == w.targetLen
    ensures Loop(w, st) == Some(st)
  {
  }

  /** The whole loop of a window with one instruction. */
  lemma {:induction false} OneInstruction(w: Window, index: byte, out: seq<byte>, data: seq<byte>, addr: seq<byte>)
    requires w.Valid() && 0 < w.targetLen < TWO_64
    requires CodeTable.Lookup(index).size1 == 0 && CodeTable.Lookup(index).inst2 == 0
    ensures CodeTable.Lookup(index).inst1 < CodeTable.COPY + CodeTable.MODES
    ensures var st := Begin(out, data, [index] + Pack(w.targetLen), addr);
      Loop(w, st) == DoOp(w, Op(CodeTable.Lookup(index).inst1, w.targetLen), st.(inst := []))
  {
    hide Pack, Unpack, DoOp, Loop, CodeTable.Lookup, EmptyCache;
    var st := Begin(out, data, [index] + Pack(w.targetLen), addr);
    AlonePacked(w.targetLen);
    assert st.inst[1..] == Pack(w.targetLen);
    IndexMeans(w, st, w.targetLen, []);
    var r := DoOp(w, Op(CodeTable.Lookup(index).inst1, w.targetLen), st.(inst := []));
    if r.Some? {
      LoopEnds(w, r.value);
    }
  }

  /** A window that repeats one byte. */
  lemma {:induction false} RunWindow(google: bool, oldData: seq<byte>, out: seq<byte>, v: byte, n: nat, rest: seq<byte>)
    requires 0 < n < TWO_57
    ensures DecodeWindow([0] + (Delta(n, [v], [0] + Pack(n), []) + rest), google, oldData, out)
         == Some((out + seq(n, _ => v), rest))
  {
    hide Pack, Unpack, Delta, Loop, Numbers, DecodeWindow, CodeTable.Lookup, EmptyCache;
    var body := Delta(n, [v], [0] + Pack(n), []) + rest;
    PackLength(n);
    var delta, lens := DeltaLayout(n, [v], [0] + Pack(n), [], rest);
    WindowMeans([0] + body, google, oldData, out, 0, false, 0, 0, body, delta, lens,
                [v] + (([0] + Pack(n)) + ([] + rest)), n, [v], [0] + Pack(n), [], rest);
    var w := Window(oldData, 0, 0, n);
    RunEntry();
    OneInstruction(w, 0, out, [v], []);
    RunMeans(w, n, Begin(out, [v], [0] + Pack(n), []).(inst := []));
    assert seq(n, _ => [v][0]) == seq(n, _ => v);
  }

  /** The same with all three sections interlaced: with no data and no address bytes of their own, the
      byte follows in the instruction section. */
  lemma {:induction false} InterlacedRun(google: bool, oldData: seq<byte>, out: seq<byte>, v: byte, n: nat, rest: seq<byte>)
    requires 0 < n < TWO_57
    ensures DecodeWindow([0] + (Delta(n, [], [0] + Pack(n) + [v], []) + rest), google, oldData, out)
         == Some((out + seq(n, _ => v), rest))
  {
    hide Pack, Unpack, Delta, Loop, DoOp, Numbers, DecodeWindow, CodeTable.Lookup, EmptyCache;
    var inst := [0] + Pack(n) + [v];
    var body := Delta(n, [], inst, []) + rest;
    PackLength(n);
    var delta, lens := DeltaLayout(n, [], inst, [], rest);
    WindowMeans([0] + body, google, oldData, out, 0, false, 0, 0, body, delta, lens,
                [] + (inst + ([] + rest)), n, [], inst, [], rest);
    var w, st := Window(oldData, 0, 0, n), Begin(out, [], inst, []);
    RunEntry();
    UnpackPack(n, [v]);
    assert inst[1..] == Pack(n) + [v];
    IndexMeans(w, st, n, [v]);
    RunMeans(w, n, st.(inst := [v]));
    assert seq(n, _ => [v][0]) == seq(n, _ => v);
    LoopEnds(w, DoOp(w, Op(2, n), st.(inst := [v])).value);
  }

  lemma RunEntry()
    ensures CodeTable.Lookup(0) == CodeTable.Pair(2, 0, 0, 0)
  {
  }

  lemma CopyEntry()
    ensures CodeTable.Lookup(19) == CodeTable.Pair(3, 0, 0, 0)
  {
  }

  /** A window that repeats a part of the output so far, whatever the old data is. */
  lemma {:induction false} OutputWindow(google: bool, oldData: seq<byte>, out: seq<byte>, p: nat, n: nat, rest: seq<byte>)
    requires 0 < n && p + n <= |out| < TWO_57
    ensures DecodeWindow([2] + (Pack(n) + (Pack(p) + (Delta(n, [], [19] + Pack(n), [0]) + rest))), google, oldData, out)
         == Some((out + out[p..p + n], rest))
  {
    hide Pack, Unpack, Delta, Loop, DoOp, Numbers, DecodeWindow, CodeTable.Lookup, EmptyCache;
    var inst := [19] + Pack(n);
    var body := Delta(n, [], inst, [0]) + rest;
    PackLength(n);
    var delta, lens := DeltaLayout(n, [], inst, [0], rest);
    PackedOne(p, body);
    PackedFirst(n, Pack(p) + body, [p], body);
    assert [n] + [p] == [n, p];
    var s := [2] + (Pack(n) + (Pack(p) + body));
    assert s[1..] == Pack(n) + (Pack(p) + body);
    WindowMeans(s, google, oldData, out, 2, false, p, n, body, delta, lens,
                [] + (inst + ([0] + rest)), n, [], inst, [0], rest);
    var w := Window(out, p, n, n);
    CopyEntry();
    OneInstruction(w, 19, out, [], [0]);
    WholeCopy(w, Begin(out, [], inst, [0]).(inst := []));
  }

  /** One COPY of the whole source window. */
  lemma {:induction false} WholeCopy(w: Window, st: State)
    requires w.Valid() && st.Valid() && st.here == 0 && 0 < w.srcLen == w.targetLen < TWO_64
    requires !st.interleaved && st.addr == [0]
    ensures var r := DoOp(w, Op(3, w.targetLen), st);
      r.Some? && r.value.out == st.out + w.src[w.srcPos..w.srcPos + w.srcLen]
  {
    hide SelfCopy;
    assert Pack(0) == [0];
    AlonePacked(0);
  }
}
