/**
 The encoder uses the code table fully: two instructions become one byte exactly when the literal table
 has an entry for the pair, and an instruction alone becomes one byte exactly when the table has an
 entry with its size.
 */
module TableCodes {
  import opened Bytes
  import opened PackedUInt
  import opened InstCoder
  import CodeTable

  /** The number that the table gives an instruction: 1 for ADD, 3 and the mode for COPY. */
  function Inst(c: VcCode): nat {
    if c.CopyCode? then 3 + c.mode else 1
  }

  ghost predicate TableHas(p: CodeTable.CodePair) {
    exists index: byte :: CodeTable.Lookup(index) == p
  }

  /** Entries with two instructions: an ADD of 1 to 4 with a short COPY, or a COPY of 4 with an ADD of 1. */
  lemma PairsOfTable(index: byte)
    ensures var p := CodeTable.Standard(index);
      p.inst2 != 0 ==>
        || (p.inst1 == 1 && 1 <= p.size1 <= 4 && 3 <= p.inst2 < 9 && 4 <= p.size2 <= 6)
        || (p.inst1 == 1 && 1 <= p.size1 <= 4 && 9 <= p.inst2 < 12 && p.size2 == 4)
        || (3 <= p.inst1 < 12 && p.size1 == 4 && p.inst2 == 1 && p.size2 == 1)
  {
  }

  lemma SinglesOfTable(index: byte)
    ensures var p := CodeTable.Standard(index);
      p.inst2 == 0 ==>
        || p.inst1 == 2
        || (p.inst1 == 1 && p.size1 <= 17)
        || (3 <= p.inst1 < 12 && (p.size1 == 0 || 4 <= p.size1 <= 18))
  {
  }

  /** Two instructions are written as one byte if and only if the table has their pair; the byte is then
      the index of the pair. */
  lemma FusedIffTable(a: VcCode, b: VcCode)
    requires ValidCode(a) && ValidCode(b)
    ensures Fused(a, b).Some? <==> TableHas(CodeTable.Pair(Inst(a), a.size, Inst(b), b.size))
    ensures Fused(a, b).Some? ==>
              CodeTable.Lookup(Fused(a, b).value) == CodeTable.Pair(Inst(a), a.size, Inst(b), b.size)
  {
    hide CodeTable.Lookup, CodeTable.Standard;
    var p := CodeTable.Pair(Inst(a), a.size, Inst(b), b.size);
    if Fused(a, b).Some? {
      FusedEntry(a, b);
      CodeTable.TableIsStandard(Fused(a, b).value);
    }
    if TableHas(p) {
      var index: byte :| CodeTable.Lookup(index) == p;
      CodeTable.TableIsStandard(index);
      PairsOfTable(index);
    }
  }

  /** An instruction alone is written as one byte if and only if the table has it with its size; else as
      the index of the entry without a size, and the packed size. */
  lemma SingleIffTable(c: VcCode)
    requires ValidCode(c)
    ensures |Single(c)| >= 1
    ensures |Single(c)| == 1 <==> TableHas(CodeTable.Pair(Inst(c), c.size, 0, 0))
    ensures |Single(c)| == 1 ==> CodeTable.Lookup(Single(c)[0]) == CodeTable.Pair(Inst(c), c.size, 0, 0)
    ensures |Single(c)| > 1 ==>
              CodeTable.Lookup(Single(c)[0]) == CodeTable.Pair(Inst(c), 0, 0, 0) && Single(c)[1..] == Pack(c.size)
  {
    hide CodeTable.Lookup, CodeTable.Standard, Pack;
    PackLength(c.size);
    SingleEntry(c);
    CodeTable.TableIsStandard(Single(c)[0]);
    if TableHas(CodeTable.Pair(Inst(c), c.size, 0, 0)) {
      var index: byte :| CodeTable.Lookup(index) == CodeTable.Pair(Inst(c), c.size, 0, 0);
      CodeTable.TableIsStandard(index);
      SinglesOfTable(index);
    }
  }

  /** An address takes one byte in the modes of the 768 addresses, and else is a packed integer. */
  lemma AddressBytes(c: VcCode, rest: seq<byte>)
    requires ValidCode(c) && c.CopyCode?
    ensures c.mode >= 6 ==> AddrBytes(c) == [c.addr]
    ensures c.mode < 6 ==> Unpack(AddrBytes(c) + rest) == Some((c.addr, rest))
  {
    hide Pack, Unpack;
    if c.mode < 6 {
      UnpackPack(c.addr, rest);
    }
  }

  /** The instruction section from its first instruction on: when the table has the first two as a pair,
      the index of the pair; else the first one alone. */
  lemma {:induction false} SectionSteps(codes: seq<VcCode>)
    requires ValidCodes(codes) && codes != []
    ensures var inst := InstOf(codes);
      if |codes| >= 2 && TableHas(CodeTable.Pair(Inst(codes[0]), codes[0].size, Inst(codes[1]), codes[1].size))
      then
        && inst != [] && inst[1..] == InstOf(codes[2..])
        && CodeTable.Lookup(inst[0]) == CodeTable.Pair(Inst(codes[0]), codes[0].size, Inst(codes[1]), codes[1].size)
      else inst == Single(codes[0]) + InstOf(codes[1..])
  {
    hide TableHas, Fused, Single, CodeTable.Lookup;
    if |codes| >= 2 {
      FusedIffTable(codes[0], codes[1]);
    }
  }
}
