/**
 The default code table of section 5.6 of RFC 3284: the 256 literal entries the patcher uses,
 and the arithmetic description by index ranges that the encoder relies on.
 */
module CodeTable {
  import opened Bytes

  /** Instruction kinds; a COPY kind carries its address mode, `COPY + mode`. */
  const NOOP: nat := 0
  const ADD: nat := 1
  const RUN: nat := 2
  const COPY: nat := 3
  const MODES: nat := 9

  /** One or two instructions; size 0 means that the size follows in the instruction section. */
  datatype CodePair = Pair(inst1: nat, size1: nat, inst2: nat, size2: nat)

  // --- the literal table -----------------------------------------------------------------

  const N: nat := NOOP
  const A: nat := ADD
  const R: nat := RUN
  const C0: nat := COPY + 0
  const C1: nat := COPY + 1
  const C2: nat := COPY + 2
  const C3: nat := COPY + 3
  const C4: nat := COPY + 4
  const C5: nat := COPY + 5
  const C6: nat := COPY + 6
  const C7: nat := COPY + 7
  const C8: nat := COPY + 8

  /** Entries `8 * r` to `8 * r + 7` of the table. */
  function TableRow(r: nat): (row: seq<CodePair>)
    requires r < 32
    ensures |row| == 8
  {
    match r
    case 0 => [Pair(R, 0, N, 0), Pair(A, 0, N, 0), Pair(A, 1, N, 0), Pair(A, 2, N, 0), Pair(A, 3, N, 0), Pair(A, 4, N, 0), Pair(A, 5, N, 0), Pair(A, 6, N, 0)]
    case 1 => [Pair(A, 7, N, 0), Pair(A, 8, N, 0), Pair(A, 9, N, 0), Pair(A, 10, N, 0), Pair(A, 11, N, 0), Pair(A, 12, N, 0), Pair(A, 13, N, 0), Pair(A, 14, N, 0)]
    case 2 => [Pair(A, 15, N, 0), Pair(A, 16, N, 0), Pair(A, 17, N, 0), Pair(C0, 0, N, 0), Pair(C0, 4, N, 0), Pair(C0, 5, N, 0), Pair(C0, 6, N, 0), Pair(C0, 7, N, 0)]
    case 3 => [Pair(C0, 8, N, 0), Pair(C0, 9, N, 0), Pair(C0, 10, N, 0), Pair(C0, 11, N, 0), Pair(C0, 12, N, 0), Pair(C0, 13, N, 0), Pair(C0, 14, N, 0), Pair(C0, 15, N, 0)]
    case 4 => [Pair(C0, 16, N, 0), Pair(C0, 17, N, 0), Pair(C0, 18, N, 0), Pair(C1, 0, N, 0), Pair(C1, 4, N, 0), Pair(C1, 5, N, 0), Pair(C1, 6, N, 0), Pair(C1, 7, N, 0)]
    case 5 => [Pair(C1, 8, N, 0), Pair(C1, 9, N, 0), Pair(C1, 10, N, 0), Pair(C1, 11, N, 0), Pair(C1, 12, N, 0), Pair(C1, 13, N, 0), Pair(C1, 14, N, 0), Pair(C1, 15, N, 0)]
    case 6 => [Pair(C1, 16, N, 0), Pair(C1, 17, N, 0), Pair(C1, 18, N, 0), Pair(C2, 0, N, 0), Pair(C2, 4, N, 0), Pair(C2, 5, N, 0), Pair(C2, 6, N, 0), Pair(C2, 7, N, 0)]
    case 7 => [Pair(C2, 8, N, 0), Pair(C2, 9, N, 0), Pair(C2, 10, N, 0), Pair(C2, 11, N, 0), Pair(C2, 12, N, 0), Pair(C2, 13, N, 0), Pair(C2, 14, N, 0), Pair(C2, 15, N, 0)]
    case 8 => [Pair(C2, 16, N, 0), Pair(C2, 17, N, 0), Pair(C2, 18, N, 0), Pair(C3, 0, N, 0), Pair(C3, 4, N, 0), Pair(C3, 5, N, 0), Pair(C3, 6, N, 0), Pair(C3, 7, N, 0)]
    case 9 => [Pair(C3, 8, N, 0), Pair(C3, 9, N, 0), Pair(C3, 10, N, 0), Pair(C3, 11, N, 0), Pair(C3, 12, N, 0), Pair(C3, 13, N, 0), Pair(C3, 14, N, 0), Pair(C3, 15, N, 0)]
    case 10 => [Pair(C3, 16, N, 0), Pair(C3, 17, N, 0), Pair(C3, 18, N, 0), Pair(C4, 0, N, 0), Pair(C4, 4, N, 0), Pair(C4, 5, N, 0), Pair(C4, 6, N, 0), Pair(C4, 7, N, 0)]
    case 11 => [Pair(C4, 8, N, 0), Pair(C4, 9, N, 0), Pair(C4, 10, N, 0), Pair(C4, 11, N, 0), Pair(C4, 12, N, 0), Pair(C4, 13, N, 0), Pair(C4, 14, N, 0), Pair(C4, 15, N, 0)]
    case 12 => [Pair(C4, 16, N, 0), Pair(C4, 17, N, 0), Pair(C4, 18, N, 0), Pair(C5, 0, N, 0), Pair(C5, 4, N, 0), Pair(C5, 5, N, 0), Pair(C5, 6, N, 0), Pair(C5, 7, N, 0)]
    case 13 => [Pair(C5, 8, N, 0), Pair(C5, 9, N, 0), Pair(C5, 10, N, 0), Pair(C5, 11, N, 0), Pair(C5, 12, N, 0), Pair(C5, 13, N, 0), Pair(C5, 14, N, 0), Pair(C5, 15, N, 0)]
    case 14 => [Pair(C5, 16, N, 0), Pair(C5, 17, N, 0), Pair(C5, 18, N, 0), Pair(C6, 0, N, 0), Pair(C6, 4, N, 0), Pair(C6, 5, N, 0), Pair(C6, 6, N, 0), Pair(C6, 7, N, 0)]
    case 15 => [Pair(C6, 8, N, 0), Pair(C6, 9, N, 0), Pair(C6, 10, N, 0), Pair(C6, 11, N, 0), Pair(C6, 12, N, 0), Pair(C6, 13, N, 0), Pair(C6, 14, N, 0), Pair(C6, 15, N, 0)]
    case 16 => [Pair(C6, 16, N, 0), Pair(C6, 17, N, 0), Pair(C6, 18, N, 0), Pair(C7, 0, N, 0), Pair(C7, 4, N, 0), Pair(C7, 5, N, 0), Pair(C7, 6, N, 0), Pair(C7, 7, N, 0)]
    case 17 => [Pair(C7, 8, N, 0), Pair(C7, 9, N, 0), Pair(C7, 10, N, 0), Pair(C7, 11, N, 0), Pair(C7, 12, N, 0), Pair(C7, 13, N, 0), Pair(C7, 14, N, 0), Pair(C7, 15, N, 0)]
    case 18 => [Pair(C7, 16, N, 0), Pair(C7, 17, N, 0), Pair(C7, 18, N, 0), Pair(C8, 0, N, 0), Pair(C8, 4, N, 0), Pair(C8, 5, N, 0), Pair(C8, 6, N, 0), Pair(C8, 7, N, 0)]
    case 19 => [Pair(C8, 8, N, 0), Pair(C8, 9, N, 0), Pair(C8, 10, N, 0), Pair(C8, 11, N, 0), Pair(C8, 12, N, 0), Pair(C8, 13, N, 0), Pair(C8, 14, N, 0), Pair(C8, 15, N, 0)]
    case 20 => [Pair(C8, 16, N, 0), Pair(C8, 17, N, 0), Pair(C8, 18, N, 0), Pair(A, 1, C0, 4), Pair(A, 1, C0, 5), Pair(A, 1, C0, 6), Pair(A, 2, C0, 4), Pair(A, 2, C0, 5)]
    case 21 => [Pair(A, 2, C0, 6), Pair(A, 3, C0, 4), Pair(A, 3, C0, 5), Pair(A, 3, C0, 6), Pair(A, 4, C0, 4), Pair(A, 4, C0, 5), Pair(A, 4, C0, 6), Pair(A, 1, C1, 4)]
    case 22 => [Pair(A, 1, C1, 5), Pair(A, 1, C1, 6), Pair(A, 2, C1, 4), Pair(A, 2, C1, 5), Pair(A, 2, C1, 6), Pair(A, 3, C1, 4), Pair(A, 3, C1, 5), Pair(A, 3, C1, 6)]
    case 23 => [Pair(A, 4, C1, 4), Pair(A, 4, C1, 5), Pair(A, 4, C1, 6), Pair(A, 1, C2, 4), Pair(A, 1, C2, 5), Pair(A, 1, C2, 6), Pair(A, 2, C2, 4), Pair(A, 2, C2, 5)]
    case 24 => [Pair(A, 2, C2, 6), Pair(A, 3, C2, 4), Pair(A, 3, C2, 5), Pair(A, 3, C2, 6), Pair(A, 4, C2, 4), Pair(A, 4, C2, 5), Pair(A, 4, C2, 6), Pair(A, 1, C3, 4)]
    case 25 => [Pair(A, 1, C3, 5), Pair(A, 1, C3, 6), Pair(A, 2, C3, 4), Pair(A, 2, C3, 5), Pair(A, 2, C3, 6), Pair(A, 3, C3, 4), Pair(A, 3, C3, 5), Pair(A, 3, C3, 6)]
    case 26 => [Pair(A, 4, C3, 4), Pair(A, 4, C3, 5), Pair(A, 4, C3, 6), Pair(A, 1, C4, 4), Pair(A, 1, C4, 5), Pair(A, 1, C4, 6), Pair(A, 2, C4, 4), Pair(A, 2, C4, 5)]
    case 27 => [Pair(A, 2, C4, 6), Pair(A, 3, C4, 4), Pair(A, 3, C4, 5), Pair(A, 3, C4, 6), Pair(A, 4, C4, 4), Pair(A, 4, C4, 5), Pair(A, 4, C4, 6), Pair(A, 1, C5, 4)]
    case 28 => [Pair(A, 1, C5, 5), Pair(A, 1, C5, 6), Pair(A, 2, C5, 4), Pair(A, 2, C5, 5), Pair(A, 2, C5, 6), Pair(A, 3, C5, 4), Pair(A, 3, C5, 5), Pair(A, 3, C5, 6)]
    case 29 => [Pair(A, 4, C5, 4), Pair(A, 4, C5, 5), Pair(A, 4, C5, 6), Pair(A, 1, C6, 4), Pair(A, 2, C6, 4), Pair(A, 3, C6, 4), Pair(A, 4, C6, 4), Pair(A, 1, C7, 4)]
    case 30 => [Pair(A, 2, C7, 4), Pair(A, 3, C7, 4), Pair(A, 4, C7, 4), Pair(A, 1, C8, 4), Pair(A, 2, C8, 4), Pair(A, 3, C8, 4), Pair(A, 4, C8, 4), Pair(C0, 4, A, 1)]
    case _ => [Pair(C1, 4, A, 1), Pair(C2, 4, A, 1), Pair(C3, 4, A, 1), Pair(C4, 4, A, 1), Pair(C5, 4, A, 1), Pair(C6, 4, A, 1), Pair(C7, 4, A, 1), Pair(C8, 4, A, 1)]
  }

  function Lookup(index: byte): CodePair {
    TableRow(index / 8)[index % 8]
  }

  // --- the description by index ranges -----------------------------------------------------

  /** Lines 1 to 21 of the table in section 5.6 of RFC 3284. */
  function Standard(index: byte): CodePair {
    if index == 0 then Pair(RUN, 0, NOOP, 0)
    else if index <= 18 then Pair(ADD, index - 1, NOOP, 0)
    else if index <= 162 then
      var k := (index - 19) % 16;
      Pair(COPY + (index - 19) / 16, if k == 0 then 0 else k + 3, NOOP, 0)
    else if index <= 234 then
      var k := (index - 163) % 12;
      Pair(ADD, k / 3 + 1, COPY + (index - 163) / 12, k % 3 + 4)
    else if index <= 246 then
      Pair(ADD, (index - 235) % 4 + 1, COPY + 6 + (index - 235) / 4, 4)
    else
      Pair(COPY + (index - 247), 4, ADD, 1)
  }

  // Row by row comparison, a few rows at a time.

  lemma Rows0To2(r: nat, j: nat)
    requires 0 <= r <= 2 && j < 8
    ensures TableRow(r)[j] == Standard(8 * r + j)
  {
  }

  lemma Rows3To5(r: nat, j: nat)
    requires 3 <= r <= 5 && j < 8
    ensures TableRow(r)[j] == Standard(8 * r + j)
  {
  }

  lemma Rows6To9(r: nat, j: nat)
    requires 6 <= r <= 9 && j < 8
    ensures TableRow(r)[j] == Standard(8 * r + j)
  {
  }

  lemma Rows10To12(r: nat, j: nat)
    requires 10 <= r <= 12 && j < 8
    ensures TableRow(r)[j] == Standard(8 * r + j)
  {
  }

  lemma Rows13To15(r: nat, j: nat)
    requires 13 <= r <= 15 && j < 8
    ensures TableRow(r)[j] == Standard(8 * r + j)
  {
  }

  lemma Rows16To18(r: nat, j: nat)
    requires 16 <= r <= 18 && j < 8
    ensures TableRow(r)[j] == Standard(8 * r + j)
  {
  }

  lemma Row19(r: nat, j: nat)
    requires r == 19 && j < 8
    ensures TableRow(r)[j] == Standard(8 * r + j)
  {
  }

  lemma Row20(r: nat, j: nat)
    requires r == 20 && j < 8
    ensures TableRow(r)[j] == Standard(8 * r + j)
  {
  }

  lemma Rows21To22(r: nat, j: nat)
    requires 21 <= r <= 22 && j < 8
    ensures TableRow(r)[j] == Standard(8 * r + j)
  {
  }

  lemma Rows23To24(r: nat, j: nat)
    requires 23 <= r <= 24 && j < 8
    ensures TableRow(r)[j] == Standard(8 * r + j)
  {
  }

  lemma Rows25To26(r: nat, j: nat)
    requires 25 <= r <= 26 && j < 8
    ensures TableRow(r)[j] == Standard(8 * r + j)
  {
  }

  lemma Rows27To28(r: nat, j: nat)
    requires 27 <= r <= 28 && j < 8
    ensures TableRow(r)[j] == Standard(8 * r + j)
  {
  }

  lemma Row29(r: nat, j: nat)
    requires r == 29 && j < 8
    ensures TableRow(r)[j] == Standard(8 * r + j)
  {
  }

  lemma Rows30To31(r: nat, j: nat)
    requires 30 <= r <= 31 && j < 8
    ensures TableRow(r)[j] == Standard(8 * r + j)
  {
  }

  /** The literal table is the standard one. */
  lemma TableIsStandard(index: byte)
    ensures Lookup(index) == Standard(index)
  {
    var r, j := index / 8, index % 8;
    if r <= 2 {
      Rows0To2(r, j);
    } else if r <= 5 {
      Rows3To5(r, j);
    } else if r <= 9 {
      Rows6To9(r, j);
    } else if r <= 12 {
      Rows10To12(r, j);
    } else if r <= 15 {
      Rows13To15(r, j);
    } else if r <= 18 {
      Rows16To18(r, j);
    } else if r == 19 {
      Row19(r, j);
    } else if r == 20 {
      Row20(r, j);
    } else if r <= 22 {
      Rows21To22(r, j);
    } else if r <= 24 {
      Rows23To24(r, j);
    } else if r <= 26 {
      Rows25To26(r, j);
    } else if r <= 28 {
      Rows27To28(r, j);
    } else if r <= 29 {
      Row29(r, j);
    } else {
      Rows30To31(r, j);
    }
  }
}
