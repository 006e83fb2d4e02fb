/**
 The instruction section: the encoder's one-instruction lookahead (`vc_encoder::emit_code`),
 the table-driven reader, and the proof that reading undoes writing.
 */
module InstCoder {
  import opened Bytes
  import opened PackedUInt
  import CodeTable

  /** `vccode_t`: nothing, an ADD of `size` bytes, or a COPY with an encoded address. */
  datatype VcCode =
    | NoCode
    | AddCode(size: u64)
    | CopyCode(size: u64, mode: nat, addr: u64)

  /** Sizes are positive, modes exist, and a SAME address fits in its one byte. */
  predicate ValidCode(c: VcCode) {
    && c != NoCode
    && c.size > 0
    && (c.CopyCode? ==> c.mode < CodeTable.MODES && (c.mode >= 6 ==> c.addr < 256))
  }

  predicate ValidCodes(codes: seq<VcCode>) {
    forall i :: 0 <= i < |codes| ==> ValidCode(codes[i])
  }

  // --- what is written ---------------------------------------------------------------------

  /** The one byte for two instructions, when the table has such a pair. */
  function Fused(first: VcCode, second: VcCode): Option<byte>
    requires ValidCode(first) && ValidCode(second)
  {
    if first.AddCode? && second.CopyCode? && first.size <= 4 then
      if second.size == 4 && second.mode >= 6 then
        Some(235 + (second.mode - 6) * 4 + (first.size - 1))
      else if 4 <= second.size <= 6 && second.mode < 6 then
        Some(163 + second.mode * 12 + (first.size - 1) * 3 + (second.size - 4))
      else
        None
    else if first.CopyCode? && second.AddCode? && first.size == 4 && second.size == 1 then
      Some(247 + first.mode)
    else
      None
  }

  /** The bytes of one instruction on its own. */
  function Single(c: VcCode): seq<byte>
    requires ValidCode(c)
  {
    match c
    case AddCode(size) => if size <= 17 then [size + 1] else [1] + Pack(size)
    case CopyCode(size, mode, _) =>
      if 4 <= size <= 18 then [19 + mode * 16 + (size - 3)] else [19 + mode * 16] + Pack(size)
  }

  function AddrBytes(c: VcCode): seq<byte> {
    if !c.CopyCode? then []
    else if c.mode < 6 then Pack(c.addr)
    else [c.addr % 256]
  }

  /** The whole address section of a list of instructions. */
  function AddrOf(codes: seq<VcCode>): seq<byte> {
    if codes == [] then [] else AddrBytes(codes[0]) + AddrOf(codes[1..])
  }

  /** The whole instruction section: fuse the first two when possible, else write the first. */
  function InstOf(codes: seq<VcCode>): seq<byte>
    requires ValidCodes(codes)
  {
    if codes == [] then []
    else if |codes| >= 2 && Fused(codes[0], codes[1]).Some? then
      [Fused(codes[0], codes[1]).value] + InstOf(codes[2..])
    else
      Single(codes[0]) + InstOf(codes[1..])
  }

  // --- the lookahead machine -----------------------------------------------------------------

  /** `prevCode`, `out_inst` and `out_addr` between two calls of `emit_code`. */
  datatype Coder = Coder(prev: VcCode, inst: seq<byte>, addr: seq<byte>)

  const START := Coder(NoCode, [], [])

  predicate ValidCoder(c: Coder) {
    c.prev == NoCode || ValidCode(c.prev)
  }

  /** `emit_code` with `code` as the current instruction. */
  function Push(c: Coder, code: VcCode): (r: Coder)
    requires ValidCoder(c) && ValidCode(code)
    ensures ValidCoder(r)
  {
    if c.prev == NoCode then
      c.(prev := code)
    else if Fused(c.prev, code).Some? then
      Coder(NoCode, c.inst + [Fused(c.prev, code).value],
            c.addr + if code.CopyCode? then AddrBytes(code) else AddrBytes(c.prev))
    else
      Coder(code, c.inst + Single(c.prev), c.addr + AddrBytes(c.prev))
  }

  /** `emit_code` without a current instruction, as at the end of a window. */
  function Flush(c: Coder): Coder
    requires ValidCoder(c)
  {
    if c.prev == NoCode then c
    else Coder(NoCode, c.inst + Single(c.prev), c.addr + AddrBytes(c.prev))
  }

  function Run(codes: seq<VcCode>): (r: Coder)
    requires ValidCodes(codes)
    ensures ValidCoder(r)
  {
    if codes == [] then START
    else Push(Run(codes[..|codes| - 1]), codes[|codes| - 1])
  }

  function Pending(c: Coder): seq<VcCode> {
    if c.prev == NoCode then [] else [c.prev]
  }

  /** Of two fused instructions exactly one has address bytes. */
  lemma FusedAddr(first: VcCode, second: VcCode)
    requires ValidCode(first) && ValidCode(second) && Fused(first, second).Some?
    ensures AddrBytes(first) + AddrBytes(second)
         == if second.CopyCode? then AddrBytes(second) else AddrBytes(first)
  {
  }

  /** The sections of a list by its first instruction, and by its first two. */
  lemma {:induction false} SectionsFront(first: VcCode, second: VcCode, rest: seq<VcCode>)
    requires ValidCode(first) && ValidCode(second) && ValidCodes(rest)
    ensures InstOf([first, second] + rest)
         == if Fused(first, second).Some? then [Fused(first, second).value] + InstOf(rest)
            else Single(first) + InstOf([second] + rest)
    ensures AddrOf([first, second] + rest) == AddrBytes(first) + AddrOf([second] + rest)
    ensures AddrOf([second] + rest) == AddrBytes(second) + AddrOf(rest)
  {
    hide Fused, Single, AddrBytes;
    var all := [first, second] + rest;
    assert all[1..] == [second] + rest;
    assert all[2..] == rest;
    assert ([second] + rest)[1..] == rest;
  }

  /** One push moves the pending instruction and the new one into the sections in their order. */
  lemma {:induction false} PushKeeps(c: Coder, code: VcCode, rest: seq<VcCode>)
    requires ValidCoder(c) && ValidCode(code) && ValidCodes(rest)
    ensures var r := Push(c, code);
      && c.inst + InstOf(Pending(c) + ([code] + rest)) == r.inst + InstOf(Pending(r) + rest)
      && c.addr + AddrOf(Pending(c) + ([code] + rest)) == r.addr + AddrOf(Pending(r) + rest)
  {
    hide InstOf, AddrOf, Fused, Single, AddrBytes;
    var r := Push(c, code);
    if c.prev == NoCode {
      assert Pending(c) + ([code] + rest) == Pending(r) + rest;
    } else {
      assert Pending(c) + ([code] + rest) == [c.prev, code] + rest;
      SectionsFront(c.prev, code, rest);
      if Fused(c.prev, code).Some? {
        assert Pending(r) + rest == rest;
        FusedAddr(c.prev, code);
        Regroup(AddrBytes(c.prev), AddrBytes(code), AddrOf(rest));
        Regroup(c.addr, AddrBytes(c.prev) + AddrBytes(code), AddrOf(rest));
        Regroup(c.inst, [Fused(c.prev, code).value], InstOf(rest));
      } else {
        Regroup(c.addr, AddrBytes(c.prev), AddrOf([code] + rest));
        Regroup(c.inst, Single(c.prev), InstOf([code] + rest));
      }
    }
  }

  /** Whatever follows, the sections written so far and those of the pending instruction agree
      with the sections of the whole list. */
  lemma {:induction false} RunKeeps(codes: seq<VcCode>, rest: seq<VcCode>)
    requires ValidCodes(codes) && ValidCodes(rest)
    ensures var r := Run(codes);
      && InstOf(codes + rest) == r.inst + InstOf(Pending(r) + rest)
      && AddrOf(codes + rest) == r.addr + AddrOf(Pending(r) + rest)
  {
    if codes == [] {
      assert codes + rest == rest && Pending(START) + rest == rest;
    } else {
      var init, code := codes[..|codes| - 1], codes[|codes| - 1];
      assert codes + rest == init + ([code] + rest);
      RunKeeps(init, [code] + rest);
      PushKeeps(Run(init), code, rest);
    }
  }

  /** The lookahead machine, flushed at the end, writes exactly the two sections and leaves
      nothing pending. */
  lemma {:induction false} CoderWritesSections(codes: seq<VcCode>)
    requires ValidCodes(codes)
    ensures Flush(Run(codes)) == Coder(NoCode, InstOf(codes), AddrOf(codes))
  {
    RunKeeps(codes, []);
    assert codes + [] == codes;
    var r := Run(codes);
    assert Pending(r) + [] == Pending(r);
    if r.prev != NoCode {
      assert Pending(r)[1..] == [];
    }
  }

  // --- what is read ----------------------------------------------------------------------------

  /** An instruction as read back: kind (ADD, RUN or COPY + mode) and size. */
  datatype Op = Op(kind: nat, size: u64)

  predicate ValidOps(ops: seq<Op>) {
    forall i :: 0 <= i < |ops| ==> ops[i].kind < CodeTable.COPY + CodeTable.MODES
  }

  function OpOf(c: VcCode): Op
    requires ValidCode(c)
  {
    match c
    case AddCode(size) => Op(CodeTable.ADD, size)
    case CopyCode(size, mode, _) => Op(CodeTable.COPY + mode, size)
  }

  function OpsOf(codes: seq<VcCode>): (ops: seq<Op>)
    requires ValidCodes(codes)
    ensures ValidOps(ops)
  {
    if codes == [] then [] else [OpOf(codes[0])] + OpsOf(codes[1..])
  }

  /** The size from the table, or the explicit size behind the instruction. */
  function ReadSize(size: nat, inst: seq<byte>): (r: Option<(u64, seq<byte>)>)
    requires size < 256
    ensures r.Some? ==> |r.value.1| <= |inst|
  {
    if size != 0 then Some((size, inst)) else Unpack(inst)
  }

  /** All instructions of an instruction section. */
  function ParseInst(inst: seq<byte>): (r: Option<seq<Op>>)
    ensures r.Some? ==> ValidOps(r.value)
    decreases |inst|
  {
    if inst == [] then Some([])
    else
      var p := CodeTable.Standard(inst[0]);
      var (n1, r1) :- ReadSize(p.size1, inst[1..]);
      if p.inst2 == CodeTable.NOOP then
        var ops :- ParseInst(r1);
        Some([Op(p.inst1, n1)] + ops)
      else
        var (n2, r2) :- ReadSize(p.size2, r1);
        var ops :- ParseInst(r2);
        Some([Op(p.inst1, n1), Op(p.inst2, n2)] + ops)
  }

  lemma SingleEntry(c: VcCode)
    requires ValidCode(c)
    ensures CodeTable.Standard(Single(c)[0])
         == CodeTable.Pair(OpOf(c).kind, if |Single(c)| == 1 then c.size else 0, CodeTable.NOOP, 0)
    ensures Single(c)[1..] == if |Single(c)| == 1 then [] else Pack(c.size)
  {
    PackLength(c.size);
    if c.CopyCode? && 4 <= c.size <= 18 {
      assert (c.mode * 16 + (c.size - 3)) / 16 == c.mode;
    }
  }

  lemma FusedEntry(first: VcCode, second: VcCode)
    requires ValidCode(first) && ValidCode(second) && Fused(first, second).Some?
    ensures CodeTable.Standard(Fused(first, second).value)
         == CodeTable.Pair(OpOf(first).kind, first.size, OpOf(second).kind, second.size)
  {
    hide CodeTable.Standard;
    if first.CopyCode? {
      CopyAddEntry(first.mode);
    } else if second.mode < 6 {
      AddCopyEntry(first.size, second.size, second.mode);
    } else {
      AddSameEntry(first.size, second.mode);
    }
  }

  lemma AddCopyEntry(add: nat, copy: nat, mode: nat)
    requires 1 <= add <= 4 && 4 <= copy <= 6 && mode < 6
    ensures CodeTable.Standard(163 + mode * 12 + (add - 1) * 3 + (copy - 4))
         == CodeTable.Pair(CodeTable.ADD, add, CodeTable.COPY + mode, copy)
  {
    var k := (add - 1) * 3 + (copy - 4);
    assert (mode * 12 + k) / 12 == mode && (mode * 12 + k) % 12 == k;
  }

  lemma AddSameEntry(add: nat, mode: nat)
    requires 1 <= add <= 4 && 6 <= mode < CodeTable.MODES
    ensures CodeTable.Standard(235 + (mode - 6) * 4 + (add - 1))
         == CodeTable.Pair(CodeTable.ADD, add, CodeTable.COPY + mode, 4)
  {
  }

  lemma CopyAddEntry(mode: nat)
    requires mode < CodeTable.MODES
    ensures CodeTable.Standard(247 + mode) == CodeTable.Pair(CodeTable.COPY + mode, 4, CodeTable.ADD, 1)
  {
  }

  lemma {:induction false} ParseSingle(c: VcCode, rest: seq<byte>)
    requires ValidCode(c) && ParseInst(rest).Some?
    ensures ParseInst(Single(c) + rest) == Some([OpOf(c)] + ParseInst(rest).value)
  {
    hide Pack, Unpack;
    var s := Single(c) + rest;
    SingleEntry(c);
    assert s[1..] == Single(c)[1..] + rest;
    if |Single(c)| != 1 {
      UnpackPack(c.size, rest);
    } else {
      assert s[1..] == rest;
    }
    var p := CodeTable.Standard(s[0]);
    assert ReadSize(p.size1, s[1..]) == Some((c.size, rest));
  }

  lemma {:induction false} ParseFused(first: VcCode, second: VcCode, rest: seq<byte>)
    requires ValidCode(first) && ValidCode(second) && Fused(first, second).Some?
    requires ParseInst(rest).Some?
    ensures ParseInst([Fused(first, second).value] + rest)
         == Some([OpOf(first), OpOf(second)] + ParseInst(rest).value)
  {
    FusedEntry(first, second);
    assert ([Fused(first, second).value] + rest)[1..] == rest;
  }

  lemma {:induction false} OpsOfTwo(codes: seq<VcCode>)
    requires ValidCodes(codes) && |codes| >= 2
    ensures OpsOf(codes) == [OpOf(codes[0]), OpOf(codes[1])] + OpsOf(codes[2..])
  {
    assert codes[1..][1..] == codes[2..];
    assert OpsOf(codes[1..]) == [OpOf(codes[1])] + OpsOf(codes[2..]);
  }

  /** Reading the instruction section through the code table gives the same instructions, in
      the same order. */
  lemma {:induction false} ParseInstOf(codes: seq<VcCode>)
    requires ValidCodes(codes)
    ensures ParseInst(InstOf(codes)) == Some(OpsOf(codes))
  {
    if codes == [] {
    } else if |codes| >= 2 && Fused(codes[0], codes[1]).Some? {
      ParseInstOf(codes[2..]);
      ParseFused(codes[0], codes[1], InstOf(codes[2..]));
      OpsOfTwo(codes);
    } else {
      ParseInstOf(codes[1..]);
      ParseSingle(codes[0], InstOf(codes[1..]));
    }
  }
}
