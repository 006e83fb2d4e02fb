/**
 One window, end to end: the decoding loop, run on the sections the encoder writes, appends
 exactly the window's part of the new data.
 */
module WindowRoundTrip {
  import opened Bytes
  import opened AddrCache
  import opened InstCoder
  import opened Covers
  import opened WindowCodes
  import opened VcDecoder
  import PackedUInt
  import CodeTable

  // --- the loop runs the parsed instructions ------------------------------------------------------

  function ExecOps(w: Window, ops: seq<Op>, st: State): (r: Option<State>)
    requires w.Valid() && st.Valid() && ValidOps(ops)
  {
    if ops == [] then Some(st)
    else
      var st1 :- DoOp(w, ops[0], st);
      ExecOps(w, ops[1..], st1)
  }

  function SetInst(r: Option<State>, inst: seq<byte>): Option<State> {
    if r.None? then None else Some(r.value.(inst := inst))
  }

  /** With three separate sections an instruction does not touch the instruction section. */
  lemma OpKeepsInst(w: Window, op: Op, st: State, inst: seq<byte>)
    requires w.Valid() && st.Valid() && !st.interleaved && op.kind < CodeTable.COPY + CodeTable.MODES
    ensures DoOp(w, op, st.(inst := inst)) == SetInst(DoOp(w, op, st), inst)
  {
    hide FastCopy, Decode, ReadAddr;
  }

  function Total(ops: seq<Op>): nat {
    if ops == [] then 0 else ops[0].size + Total(ops[1..])
  }

  predicate Positive(ops: seq<Op>) {
    forall i :: 0 <= i < |ops| ==> ops[i].size > 0
  }

  /** The decoding loop is the table-driven reader followed by plain execution, for every
      instruction section with positive sizes that add up to the rest of the window. */
  lemma {:induction false} LoopRunsOps(w: Window, st: State)
    requires w.Valid() && st.Valid() && !st.interleaved && ParseInst(st.inst).Some?
    requires Positive(ParseInst(st.inst).value) && st.here + Total(ParseInst(st.inst).value) == w.targetLen
    ensures Loop(w, st) == ExecOps(w, ParseInst(st.inst).value, st.(inst := []))
    decreases |st.inst|, 0
  {
    var ops := ParseInst(st.inst).value;
    if st.inst == [] {
      assert st == st.(inst := []);
    } else {
      var p := CodeTable.Standard(st.inst[0]);
      var (n1, r1) := ReadSize(p.size1, st.inst[1..]).value;
      assert ops[0] == Op(p.inst1, n1);
      OpKeepsInst(w, ops[0], st, []);
      OpKeepsInst(w, ops[0], st, r1);
      var st1 := DoOp(w, ops[0], st.(inst := r1));
      assert st1 == DoCode(w, p.inst1, p.size1, st.(inst := st.inst[1..]));
      if st1.Some? {
        if p.inst2 == CodeTable.NOOP {
          assert ops[1..] == ParseInst(r1).value;
          LoopRunsOps(w, st1.value);
        } else {
          LoopSecond(w, st1.value, p, ops);
        }
      }
    }
  }

  lemma {:induction false} LoopSecond(w: Window, st1: State, p: CodeTable.CodePair, ops: seq<Op>)
    requires w.Valid() && st1.Valid() && !st1.interleaved && ValidOps(ops) && |ops| >= 2 && Positive(ops)
    requires p.inst2 < CodeTable.COPY + CodeTable.MODES && p.size2 < 256
    requires ReadSize(p.size2, st1.inst).Some?
    requires var (n2, r2) := ReadSize(p.size2, st1.inst).value;
      ops[1] == Op(p.inst2, n2) && ParseInst(r2) == Some(ops[2..])
    requires st1.here + Total(ops[1..]) == w.targetLen
    ensures var st2 := DoCode(w, p.inst2, p.size2, st1);
      ExecOps(w, ops[1..], st1.(inst := [])) == if st2.None? then None else Loop(w, st2.value)
    decreases |st1.inst|, 1
  {
    var (n2, r2) := ReadSize(p.size2, st1.inst).value;
    OpKeepsInst(w, ops[1], st1, []);
    OpKeepsInst(w, ops[1], st1, r2);
    var st2 := DoCode(w, p.inst2, p.size2, st1);
    assert ops[1..][1..] == ops[2..];
    if st2.Some? {
      LoopRunsOps(w, st2.value);
    }
  }

  // --- executing the instructions of a window ---------------------------------------------------

  lemma {:induction false} OpsAppend(a: seq<VcCode>, b: seq<VcCode>)
    requires ValidCodes(a) && ValidCodes(b)
    ensures ValidCodes(a + b) && OpsOf(a + b) == OpsOf(a) + OpsOf(b)
  {
    hide OpOf, ValidCode, ValidOps;
    ValidAppend(a, b);
    if a == [] {
      assert a + b == b;
    } else {
      assert a + b == [a[0]] + (a[1..] + b) && (a + b)[1..] == a[1..] + b;
      OpsAppend(a[1..], b);
      Regroup([OpOf(a[0])], OpsOf(a[1..]), OpsOf(b));
    }
  }

  lemma {:induction false} AddrAppend(a: seq<VcCode>, b: seq<VcCode>)
    ensures AddrOf(a + b) == AddrOf(a) + AddrOf(b)
  {
    if a == [] {
      assert a + b == b;
    } else {
      assert (a + b)[1..] == a[1..] + b;
      AddrAppend(a[1..], b);
    }
  }

  lemma {:induction false} TotalOfOps(codes: seq<VcCode>)
    requires ValidCodes(codes)
    ensures Total(OpsOf(codes)) == SumSizes(codes) && Positive(OpsOf(codes))
  {
    if codes != [] {
      TotalOfOps(codes[1..]);
      assert OpsOf(codes)[1..] == OpsOf(codes[1..]);
      forall i | 0 <= i < |OpsOf(codes)| ensures OpsOf(codes)[i].size > 0 {
        if i > 0 {
          assert OpsOf(codes)[i] == OpsOf(codes[1..])[i - 1];
        }
      }
    }
  }

  /** The window of the decoder that belongs to an encoder window. */
  function WindowOf(oldData: seq<byte>, e: Env, end: nat): Window
    requires e.targetPos <= end
  {
    Window(oldData, e.srcPos, e.srcLen, end - e.targetPos)
  }

  /** The setting of one window from `here` on: what the covers and the decoder's window are. */
  ghost predicate Setting(cs: seq<Cover>, here: nat, end: nat, e: Env, oldData: seq<byte>, newData: seq<byte>) {
    && e.targetPos <= here <= end <= |newData| < TWO_64 && |oldData| < TWO_64
    && e.srcPos + e.srcLen <= |oldData|
    && Ordered(cs, here, |newData|) && Fits(cs, end) && InSource(cs, e)
    && AllMatching(cs, oldData, newData)
  }

  lemma {:induction false} SettingNext(cs: seq<Cover>, here: nat, end: nat, e: Env, oldData: seq<byte>, newData: seq<byte>)
    requires Setting(cs, here, end, e, oldData, newData) && cs != [] && cs[0].newPos < end
    ensures Setting(cs[1..], cs[0].NewEnd(), end, e, oldData, newData)
  {
    var rest := cs[1..];
    assert forall i :: 0 <= i < |rest| ==> rest[i] == cs[i + 1];
  }

  /** Decoder state in front of the instructions for `here` to `end`. */
  ghost predicate InFront(st: State, cs: seq<Cover>, here: nat, end: nat, e: Env, newData: seq<byte>)
    requires here <= end <= |newData| && |newData| < TWO_64
  {
    && st.Valid() && !st.interleaved
    && st.here == here - e.targetPos
    && st.data == GapBytes(cs, here, end, newData)
    && st.addr == AddrOf(Codes(cs, here, end, e, st.cache))
  }

  /** An ADD (or no instruction, for an empty gap) takes the gap's bytes from the data section. */
  lemma {:induction false} ExecAdd(w: Window, gap: nat, ops: seq<Op>, st: State, bytes: seq<byte>, rest: seq<byte>)
    requires w.Valid() && st.Valid() && !st.interleaved && ValidOps(ops) && gap < TWO_64
    requires st.here + gap <= w.targetLen
    requires |bytes| == gap && st.data == bytes + rest
    ensures ValidCodes(AddFor(gap))
    ensures ExecOps(w, OpsOf(AddFor(gap)) + ops, st)
         == ExecOps(w, ops, st.(here := st.here + gap, out := st.out + bytes, data := rest))
  {
    if gap == 0 {
      assert OpsOf(AddFor(gap)) + ops == ops;
      assert rest == st.data && st.out + bytes == st.out;
      assert st == st.(here := st.here + gap, out := st.out + bytes, data := rest);
    } else {
      assert AddFor(gap)[1..] == [];
      assert OpsOf(AddFor(gap)) == [Op(CodeTable.ADD, gap)];
      assert ([Op(CodeTable.ADD, gap)] + ops)[1..] == ops;
      assert st.data[..gap] == bytes && st.data[gap..] == rest;
    }
  }

  lemma AddrOfAdd(gap: nat)
    requires gap < TWO_64
    ensures AddrOf(AddFor(gap)) == []
  {
    assert gap > 0 ==> AddFor(gap)[1..] == [];
  }

  /** The address bytes of a COPY are read back as its encoded address. */
  lemma {:induction false} ReadAddrBytes(code: VcCode, rest: seq<byte>)
    requires ValidCode(code) && code.CopyCode?
    ensures ReadAddr(code.mode, AddrBytes(code) + rest) == Some((code.addr, rest))
  {
    if code.mode < SAME0 {
      PackedUInt.UnpackPack(code.addr, rest);
    } else {
      assert (AddrBytes(code) + rest)[1..] == rest;
    }
  }

  /** Copying a range of the source window appends that range of the old data. */
  lemma FastCopyFromSource(w: Window, out: seq<byte>, here: nat, addr: u64, size: nat)
    requires w.Valid() && here <= |out| && size > 0 && addr + size <= w.srcLen
    ensures FastCopy(w, out, here, addr, size)
         == Some(out + w.src[w.srcPos + addr..w.srcPos + addr + size])
  {
  }

  /** The COPY for a cover is valid and its encoded address decodes to the cover's address. */
  lemma CopyDecodes(c: Cover, e: Env, cache: Cache)
    requires cache.Valid() && 0 < c.length < TWO_64
    ensures var copy := CopyFor(c, e, cache);
      && ValidCode(copy) && copy.CopyCode?
      && Decode(cache, copy.mode, copy.addr, Wrap64(e.srcLen + c.newPos - e.targetPos)) == CopyAddr(c, e)
  {
    CopyIsValid(c, e, cache);
    PickInverts(cache, CopyAddr(c, e), Wrap64(e.srcLen + c.newPos - e.targetPos));
  }

  /** A COPY step from its three parts: address bytes, address and copied bytes. */
  lemma DoCopyParts(w: Window, op: Op, st: State, sub: u64, rest: seq<byte>, addr: u64, out: seq<byte>)
    requires w.Valid() && st.Valid() && !st.interleaved
    requires CodeTable.COPY <= op.kind < CodeTable.COPY + CodeTable.MODES
    requires ReadAddr(op.kind - CodeTable.COPY, st.addr) == Some((sub, rest))
    requires Decode(st.cache, op.kind - CodeTable.COPY, sub, Wrap64(w.srcLen + st.here)) == addr
    requires FastCopy(w, st.out, st.here, addr, op.size) == Some(out)
    ensures DoCopy(w, op, st)
         == Some(State(st.here + op.size, st.cache.Update(addr), out, st.data, st.inst, rest, false))
  {
  }

  /** A COPY of a matching cover appends the cover's part of the new data. */
  lemma {:induction false} DoCopyOfCover(w: Window, c: Cover, e: Env, st: State,
                                         newData: seq<byte>, rest: seq<byte>)
    requires w.Valid() && st.Valid() && !st.interleaved
    requires w.srcPos == e.srcPos && w.srcLen == e.srcLen
    requires |w.src| < TWO_64 && 0 < c.length < TWO_64
    requires Matching(c, w.src, newData) && e.srcPos <= c.oldPos && c.OldEnd() <= e.srcPos + e.srcLen
    requires e.targetPos <= c.newPos && st.here == c.newPos - e.targetPos
    requires st.addr == AddrBytes(CopyFor(c, e, st.cache)) + rest
    ensures ValidCode(CopyFor(c, e, st.cache))
    ensures DoCopy(w, OpOf(CopyFor(c, e, st.cache)), st)
         == Some(State(st.here + c.length, st.cache.Update(CopyAddr(c, e)),
                       st.out + newData[c.newPos..c.NewEnd()], st.data, st.inst, rest, false))
  {
    hide FastCopy, DoCopy, Decode, ReadAddr, AddrBytes;
    CopyDecodes(c, e, st.cache);
    var copy := CopyFor(c, e, st.cache);
    var addr := CopyAddr(c, e);
    assert addr == c.oldPos - e.srcPos;
    ReadAddrBytes(copy, rest);
    FastCopyFromSource(w, st.out, st.here, addr, c.length);
    DoCopyParts(w, OpOf(copy), st, copy.addr, rest, addr, st.out + newData[c.newPos..c.NewEnd()]);
  }

  lemma {:induction false} ExecCopy(w: Window, c: Cover, e: Env, ops: seq<Op>, st: State,
                                    newData: seq<byte>, rest: seq<byte>)
    requires w.Valid() && st.Valid() && !st.interleaved && ValidOps(ops)
    requires w.srcPos == e.srcPos && w.srcLen == e.srcLen
    requires |w.src| < TWO_64 && 0 < c.length < TWO_64
    requires Matching(c, w.src, newData) && e.srcPos <= c.oldPos && c.OldEnd() <= e.srcPos + e.srcLen
    requires e.targetPos <= c.newPos && st.here == c.newPos - e.targetPos
    requires st.here + c.length <= w.targetLen
    requires st.addr == AddrBytes(CopyFor(c, e, st.cache)) + rest
    ensures ValidCode(CopyFor(c, e, st.cache))
    ensures ExecOps(w, [OpOf(CopyFor(c, e, st.cache))] + ops, st)
         == ExecOps(w, ops, st.(here := st.here + c.length, out := st.out + newData[c.newPos..c.NewEnd()],
                                addr := rest, cache := st.cache.Update(CopyAddr(c, e))))
  {
    DoCopyOfCover(w, c, e, st, newData, rest);
    assert ([OpOf(CopyFor(c, e, st.cache))] + ops)[1..] == ops;
  }

  /** The state behind the gap and the COPY of a cover. */
  ghost function AfterCover(c: Cover, here: nat, e: Env, st: State, newData: seq<byte>,
                            data: seq<byte>, addr: seq<byte>): State
    requires here <= c.newPos && c.NewEnd() <= |newData| && st.Valid()
  {
    State(st.here + (c.NewEnd() - here), st.cache.Update(CopyAddr(c, e)),
          st.out + newData[here..c.newPos] + newData[c.newPos..c.NewEnd()], data, st.inst, addr, false)
  }

  /** Executing the gap and the COPY of a cover. */
  lemma {:induction false} ExecCover(w: Window, c: Cover, here: nat, e: Env, ops: seq<Op>, st: State,
                                     newData: seq<byte>, data: seq<byte>, addr: seq<byte>)
    requires w.Valid() && st.Valid() && !st.interleaved && ValidOps(ops)
    requires w.srcPos == e.srcPos && w.srcLen == e.srcLen
    requires |w.src| < TWO_64 && |newData| < TWO_64 && 0 < c.length
    requires Matching(c, w.src, newData) && e.srcPos <= c.oldPos && c.OldEnd() <= e.srcPos + e.srcLen
    requires e.targetPos <= here <= c.newPos && st.here == here - e.targetPos
    requires c.NewEnd() - e.targetPos <= w.targetLen
    requires st.data == newData[here..c.newPos] + data
    requires st.addr == AddrBytes(CopyFor(c, e, st.cache)) + addr
    ensures ValidCodes(AddFor(c.newPos - here)) && ValidCode(CopyFor(c, e, st.cache))
    ensures ExecOps(w, OpsOf(AddFor(c.newPos - here)) + ([OpOf(CopyFor(c, e, st.cache))] + ops), st)
         == ExecOps(w, ops, AfterCover(c, here, e, st, newData, data, addr))
  {
    hide ExecOps, OpsOf, CopyFor, AddrBytes, AddFor;
    CopyIsValid(c, e, st.cache);
    var gap := c.newPos - here;
    var st1 := State(st.here + gap, st.cache, st.out + newData[here..c.newPos], data, st.inst, st.addr, false);
    ghost var copyOps := [OpOf(CopyFor(c, e, st.cache))] + ops;
    assert ExecOps(w, OpsOf(AddFor(gap)) + copyOps, st) == ExecOps(w, copyOps, st1) by {
      ExecAdd(w, gap, copyOps, st, newData[here..c.newPos], data);
    }
    assert ExecOps(w, copyOps, st1) == ExecOps(w, ops, AfterCover(c, here, e, st, newData, data, addr)) by {
      ExecCopy(w, c, e, ops, st1, newData, addr);
    }
  }

  /** The sections of a window that starts with a gap and a cover. */
  lemma {:induction false} SectionsOfCover(cs: seq<Cover>, here: nat, end: nat, e: Env, cache: Cache,
                                           oldData: seq<byte>, newData: seq<byte>)
    requires Setting(cs, here, end, e, oldData, newData) && cs != [] && cs[0].newPos < end && cache.Valid()
    ensures var c := cs[0];
      && here <= c.newPos && c.NewEnd() <= end && c.length > 0 && Matching(c, oldData, newData)
      && e.srcPos <= c.oldPos && c.OldEnd() <= e.srcPos + e.srcLen
      && Codes(cs, here, end, e, cache)
         == AddFor(c.newPos - here) + [CopyFor(c, e, cache)]
            + Codes(cs[1..], c.NewEnd(), end, e, cache.Update(CopyAddr(c, e)))
      && GapBytes(cs, here, end, newData)
         == newData[here..c.newPos] + GapBytes(cs[1..], c.NewEnd(), end, newData)
  {
  }

  /** Instructions and addresses of a gap, a COPY and what follows. */
  lemma {:induction false} StepSections(gap: nat, copy: VcCode, codes: seq<VcCode>)
    requires gap < TWO_64 && ValidCode(copy) && ValidCodes(codes)
    ensures ValidCodes(AddFor(gap)) && ValidCodes(AddFor(gap) + [copy] + codes)
    ensures OpsOf(AddFor(gap) + [copy] + codes) == OpsOf(AddFor(gap)) + ([OpOf(copy)] + OpsOf(codes))
    ensures AddrOf(AddFor(gap) + [copy] + codes) == AddrBytes(copy) + AddrOf(codes)
  {
    OpsAppend(AddFor(gap), [copy] + codes);
    AddrAppend(AddFor(gap), [copy] + codes);
    AddrOfAdd(gap);
    assert ([copy] + codes)[1..] == codes;
    assert AddFor(gap) + [copy] + codes == AddFor(gap) + ([copy] + codes);
  }

  /** Executing the instructions of a window from `here` to its end appends exactly the new data
      of that range and uses up the data and address sections. */
  lemma {:induction false} ExecCodes(cs: seq<Cover>, here: nat, end: nat, e: Env, st: State,
                                     oldData: seq<byte>, newData: seq<byte>)
    requires Setting(cs, here, end, e, oldData, newData)
    requires InFront(st, cs, here, end, e, newData)
    ensures ValidCodes(Codes(cs, here, end, e, st.cache))
    ensures var r := ExecOps(WindowOf(oldData, e, end), OpsOf(Codes(cs, here, end, e, st.cache)), st);
      && r.Some?
      && r.value.out == st.out + newData[here..end]
      && r.value.here == end - e.targetPos
      && r.value.data == [] && r.value.addr == [] && r.value.inst == st.inst
    decreases cs, 1
  {
    hide Codes, ExecOps, OpsOf, ValidCodes;
    CodesAreValid(cs, here, end, e, st.cache, |newData|);
    if cs == [] || end <= cs[0].newPos {
      ExecLastGap(cs, here, end, e, st, oldData, newData);
    } else {
      ExecCodesStep(cs, here, end, e, st, oldData, newData);
    }
  }

  /** No cover is left in the window. */
  lemma {:induction false} ExecLastGap(cs: seq<Cover>, here: nat, end: nat, e: Env, st: State,
                                       oldData: seq<byte>, newData: seq<byte>)
    requires Setting(cs, here, end, e, oldData, newData) && (cs == [] || end <= cs[0].newPos)
    requires InFront(st, cs, here, end, e, newData)
    requires ValidCodes(Codes(cs, here, end, e, st.cache))
    ensures var r := ExecOps(WindowOf(oldData, e, end), OpsOf(Codes(cs, here, end, e, st.cache)), st);
      && r.Some?
      && r.value.out == st.out + newData[here..end]
      && r.value.here == end - e.targetPos
      && r.value.data == [] && r.value.addr == [] && r.value.inst == st.inst
  {
    hide Codes, GapBytes, AddFor, AddrOf, OpsOf, ExecOps, ValidCodes, Ordered, Fits, AllMatching, InSource;
    LastGap(cs, here, end, e, st.cache, newData);
    ExecOnlyAdd(WindowOf(oldData, e, end), end - here, st, newData[here..end]);
  }

  /** An ADD alone. */
  lemma {:induction false} ExecOnlyAdd(w: Window, gap: nat, st: State, bytes: seq<byte>)
    requires w.Valid() && st.Valid() && !st.interleaved && gap < TWO_64
    requires st.here + gap <= w.targetLen && |bytes| == gap && st.data == bytes
    ensures ValidCodes(AddFor(gap))
    ensures ExecOps(w, OpsOf(AddFor(gap)), st)
         == Some(st.(here := st.here + gap, out := st.out + bytes, data := []))
  {
    hide AddFor;
    assert bytes + [] == bytes;
    ExecAdd(w, gap, [], st, bytes, []);
    assert OpsOf(AddFor(gap)) + [] == OpsOf(AddFor(gap));
  }

  lemma {:induction false} LastGap(cs: seq<Cover>, here: nat, end: nat, e: Env, cache: Cache, newData: seq<byte>)
    requires here <= end <= |newData| < TWO_64 && cache.Valid() && Ordered(cs, here, |newData|)
    requires cs == [] || end <= cs[0].newPos
    ensures Codes(cs, here, end, e, cache) == AddFor(end - here) && GapBytes(cs, here, end, newData) == newData[here..end]
    ensures AddrOf(AddFor(end - here)) == []
  {
    AddrOfAdd(end - here);
  }

  lemma {:induction false} ExecCodesStep(cs: seq<Cover>, here: nat, end: nat, e: Env, st: State,
                                         oldData: seq<byte>, newData: seq<byte>)
    requires Setting(cs, here, end, e, oldData, newData) && cs != [] && cs[0].newPos < end
    requires InFront(st, cs, here, end, e, newData)
    requires ValidCodes(Codes(cs, here, end, e, st.cache))
    ensures var r := ExecOps(WindowOf(oldData, e, end), OpsOf(Codes(cs, here, end, e, st.cache)), st);
      && r.Some?
      && r.value.out == st.out + newData[here..end]
      && r.value.here == end - e.targetPos
      && r.value.data == [] && r.value.addr == [] && r.value.inst == st.inst
    decreases cs, 0
  {
    hide ExecOps, OpsOf, AddrOf, Ordered, Fits;
    var c := cs[0];
    var w := WindowOf(oldData, e, end);
    var cache1 := st.cache.Update(CopyAddr(c, e));
    SectionsOfCover(cs, here, end, e, st.cache, oldData, newData);
    SettingNext(cs, here, end, e, oldData, newData);
    var codes := Codes(cs[1..], c.NewEnd(), end, e, cache1);
    CodesAreValid(cs[1..], c.NewEnd(), end, e, cache1, |newData|);
    CopyIsValid(c, e, st.cache);
    StepSections(c.newPos - here, CopyFor(c, e, st.cache), codes);
    var rest := GapBytes(cs[1..], c.NewEnd(), end, newData);
    ExecCover(w, c, here, e, OpsOf(codes), st, newData, rest, AddrOf(codes));
    ExecCodes(cs[1..], c.NewEnd(), end, e, AfterCover(c, here, e, st, newData, rest, AddrOf(codes)), oldData, newData);
    JoinThree(st.out, newData, here, c.newPos, c.NewEnd(), end);
  }

  lemma JoinThree(out: seq<byte>, s: seq<byte>, a: nat, b: nat, c: nat, d: nat)
    requires a <= b <= c <= d <= |s|
    ensures out + s[a..b] + s[b..c] + s[c..d] == out + s[a..d]
  {
  }
}
