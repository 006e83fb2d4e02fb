/**
 The self-extracting archive (`createSfx`): the patcher's own program file is copied chunk by chunk,
 a marker in it is found and stamped with offset and size of the diff, and the diff is appended.
 */
module Sfx {
  import opened Bytes
  import opened BsdiffCodes

  const GUID_SIZE: nat := 16
  const NODE_SIZE: nat := 28

  const NODE: seq<byte> :=
    [0xfd, 0x6c, 0x3a, 0x9d, 0x14, 0x98, 0x4a, 0x5d, 0xa9, 0xd5, 0x73, 0x03, 0xa8, 0x2f, 0xd0, 0x8e,
     0xff, 0xff, 0xff, 0xff, 0xff, 0xff, 0xff, 0xff, 0xff, 0xff, 0xff, 0xff]

  const TWO_32: int := 0x1_0000_0000

  // --- the whole file ----------------------------------------------------------------------------

  predicate IsFirst(s: seq<byte>, sub: seq<byte>, p: nat) {
    OccursAt(s, sub, p) && forall q: nat :: q < p ==> !OccursAt(s, sub, q)
  }

  predicate Absent(s: seq<byte>, sub: seq<byte>) {
    forall q: nat :: q <= |s| ==> !OccursAt(s, sub, q)
  }

  /** The file with offset and size written behind the guid of the node at `p`. */
  function Stamp(s: seq<byte>, p: nat, offset: nat, size: nat): (r: seq<byte>)
    requires p + NODE_SIZE <= |s|
    ensures |r| == |s|
  {
    s[..p + GUID_SIZE] + (Le(offset, 4) + Le(size, 8)) + s[p + NODE_SIZE..]
  }

  /** A piece of three parts joined, around the middle one. */
  lemma PieceAround(x: seq<byte>, m: seq<byte>, z: seq<byte>, a: nat, b: nat)
    requires a <= |x| && |x| + |m| <= b <= |x| + |m| + |z|
    ensures (x + m + z)[a..b] == x[a..] + m + z[..b - |x| - |m|]
  {
  }

  /** A piece of the stamped file that holds the node is the stamped piece. */
  lemma StampOfPiece(s: seq<byte>, p: nat, offset: nat, size: nat, a: nat, b: nat)
    requires a <= p && p + NODE_SIZE <= b <= |s|
    ensures Stamp(s, p, offset, size)[a..b] == Stamp(s[a..b], p - a, offset, size)
  {
    hide Le;
    PieceAround(s[..p + GUID_SIZE], Le(offset, 4) + Le(size, 8), s[p + NODE_SIZE..], a, b);
    assert s[..p + GUID_SIZE][a..] == s[a..b][..p - a + GUID_SIZE];
    assert s[p + NODE_SIZE..][..b - (p + NODE_SIZE)] == s[a..b][p - a + NODE_SIZE..];
  }

  /** A piece before or behind the node is not changed. */
  lemma StampElsewhere(s: seq<byte>, p: nat, offset: nat, size: nat, a: nat, b: nat)
    requires p + NODE_SIZE <= |s| && a <= b <= |s| && (b <= p + GUID_SIZE || p + NODE_SIZE <= a)
    ensures Stamp(s, p, offset, size)[a..b] == s[a..b]
  {
    hide Le;
    forall k | a <= k < b ensures Stamp(s, p, offset, size)[k] == s[k] {
    }
  }

  // --- reading back --------------------------------------------------------------------------------

  /** `getDiffDataOffertInSfx` on the node of a program: all ones mean that there is no diff. */
  function ReadBack(node: seq<byte>): Option<(nat, nat)>
    requires |node| == NODE_SIZE
  {
    var diffOff := FromLe(node[GUID_SIZE..GUID_SIZE + 4]);
    var diffSize := FromLe(node[GUID_SIZE + 4..]);
    if diffOff == TWO_32 - 1 || diffSize == TWO_64 - 1 then None else Some((diffOff, diffSize))
  }

  /** Offset and size are read back as they were stamped, except when one of them is all ones. */
  lemma {:induction false} StampReadBack(s: seq<byte>, p: nat, offset: nat, size: nat)
    requires p + NODE_SIZE <= |s| && offset < TWO_32 && size < TWO_64
    ensures ReadBack(Stamp(s, p, offset, size)[p..p + NODE_SIZE])
         == if offset == TWO_32 - 1 || size == TWO_64 - 1 then None else Some((offset, size))
  {
    hide Le, FromLe;
    var node := Stamp(s, p, offset, size)[p..p + NODE_SIZE];
    assert node[GUID_SIZE..GUID_SIZE + 4] == Le(offset, 4);
    assert node[GUID_SIZE + 4..] == Le(size, 8);
    PowFourEight();
    FromLeOfLe(offset, 4);
    FromLeOfLe(size, 8);
  }

  /** The stamped file, byte by byte: behind the sixteen bytes of the guid stand the offset in four and the
      size in eight bytes, the lowest first; nothing else is changed. */
  lemma {:induction false} StampBytes(s: seq<byte>, p: nat, offset: nat, size: nat)
    requires p + NODE_SIZE <= |s| && offset < TWO_32 && size < TWO_64
    ensures var r := Stamp(s, p, offset, size);
      && IsWord32(r[p + 16..p + 20], offset) && IsWord(r[p + 20..p + 28], size)
      && forall k :: 0 <= k < |s| && !(p + 16 <= k < p + 28) ==> r[k] == s[k]
  {
    hide Le, IsWord, IsWord32;
    var r := Stamp(s, p, offset, size);
    assert r[p + 16..p + 20] == Le(offset, 4);
    assert r[p + 20..p + 28] == Le(size, 8) == Word(size);
    Le32IsWord(offset);
    WordIsWord(size);
  }

  // --- the search -------------------------------------------------------------------------------------

  /** `_search` in a part of the buffer: the first occurrence, or the end. */
  method Search(mem: array<byte>, from: nat, end: nat, sub: seq<byte>) returns (pos: nat)
    requires from <= end <= mem.Length && sub != []
    ensures from <= pos <= end
    ensures pos < end ==> IsFirst(mem[from..end], sub, pos - from)
    ensures pos == end ==> Absent(mem[from..end], sub)
  {
    if end - from < |sub| {
      return end;
    }
    ghost var s := mem[from..end];
    var searchLast := end - |sub|;
    pos := from;
    while pos <= searchLast
      invariant from <= pos <= searchLast + 1
      invariant forall q: nat :: q < pos - from ==> !OccursAt(s, sub, q)
    {
      var i := 0;
      while i < |sub| && sub[i] == mem[pos + i]
        invariant 0 <= i <= |sub|
        invariant forall k :: 0 <= k < i ==> sub[k] == mem[pos + k]
      {
        i := i + 1;
      }
      ghost var w := s[pos - from..pos - from + |sub|];
      assert forall k :: 0 <= k < |sub| ==> w[k] == mem[pos + k];
      if i == |sub| {
        assert w == sub;
        return;
      }
      assert w[i] != sub[i];
      pos := pos + 1;
    }
    return end;
  }

  /** The stamp in the buffer, byte by byte. */
  method StampNode(mem: array<byte>, at: nat, v: nat, n: nat)
    requires at + n <= mem.Length
    modifies mem
    ensures mem[..] == old(mem[..at]) + Le(v, n) + old(mem[at + n..])
  {
    hide Le;
    var i, left := 0, v;
    ghost var code := Le(v, n);
    while i < n
      invariant 0 <= i <= n && left >= 0 && code[i..] == Le(left, n - i)
      invariant forall k :: 0 <= k < i ==> mem[at + k] == code[k]
      invariant forall k :: 0 <= k < mem.Length && !(at <= k < at + i) ==> mem[k] == old(mem[k])
    {
      LeNext(code, i, left, n - i);
      mem[at + i] := left % 256;
      left := left / 256;
      i := i + 1;
    }
    assert mem[at..at + n] == code;
    assert mem[..] == mem[..at] + mem[at..at + n] + mem[at + n..];
    assert mem[..at] == old(mem[..at]) && mem[at + n..] == old(mem[at + n..]);
  }

  lemma {:induction false} LeNext(code: seq<byte>, i: nat, left: nat, n: nat)
    requires n > 0 && i < |code| && code[i..] == Le(left, n)
    ensures code[i] == left % 256 && code[i + 1..] == Le(left / 256, n - 1)
  {
    assert code[i..][0] == code[i] && code[i..][1..] == code[i + 1..];
    assert Le(left, n)[1..] == Le(left / 256, n - 1);
  }

  // --- the chunks ----------------------------------------------------------------------------------------

  /** Nothing before position `to` of the file: an occurrence in a window that overlaps the part
      searched by a whole node is found there first. */
  lemma WindowFirst(s: seq<byte>, sub: seq<byte>, o: nat, to: nat, end: nat, p: nat)
    requires sub != [] && o <= to <= end <= |s| && (to == 0 || o + |sub| == to)
    requires Absent(s[..to], sub) && IsFirst(s[o..end], sub, p)
    ensures IsFirst(s, sub, o + p)
  {
    SliceOfSlice(s, o, end, p, p + |sub|);
    forall q: nat | q < o + p ensures !OccursAt(s, sub, q) {
      NotBefore(s, sub, o, to, end, q);
    }
  }

  /** A place that is absent from the part searched before and from the window does not hold it. */
  lemma NotBefore(s: seq<byte>, sub: seq<byte>, o: nat, to: nat, end: nat, q: nat)
    requires sub != [] && o <= to <= end <= |s| && (to == 0 || o + |sub| == to) && q + |sub| <= end
    requires Absent(s[..to], sub) && (q >= o ==> !OccursAt(s[o..end], sub, q - o))
    ensures !OccursAt(s, sub, q)
  {
    if q + |sub| <= to {
      TakeSlice(s, to, q, q + |sub|);
      assert !OccursAt(s[..to], sub, q);
    } else {
      SliceOfSlice(s, o, end, q - o, q - o + |sub|);
    }
  }

  lemma TakeSlice(s: seq<byte>, end: nat, a: nat, b: nat)
    requires a <= b <= end <= |s|
    ensures s[..end][a..b] == s[a..b]
  {
  }

  lemma WindowAbsent(s: seq<byte>, sub: seq<byte>, o: nat, to: nat, end: nat)
    requires sub != [] && o <= to <= end <= |s| && (to == 0 || o + |sub| == to)
    requires Absent(s[..to], sub) && Absent(s[o..end], sub)
    ensures Absent(s[..end], sub)
  {
    forall q: nat | q <= end ensures !OccursAt(s[..end], sub, q) {
      if q + |sub| <= end {
        NotBefore(s, sub, o, to, end, q);
        TakeSlice(s, end, q, q + |sub|);
      }
    }
  }

  /** What the copy must produce: the file, stamped once the node is found. */
  ghost function Target(exe: seq<byte>, found: Option<nat>, size: nat): (r: seq<byte>)
    ensures |r| == |exe|
  {
    if found.Some? && found.value + NODE_SIZE <= |exe| then Stamp(exe, found.value, |exe|, size) else exe
  }

  /** The state between two chunks: which part is searched, and where the node was found. */
  ghost predicate Searched(exe: seq<byte>, readPos: nat, found: Option<nat>) {
    && readPos <= |exe|
    && (if found.None? then Absent(exe[..readPos], NODE)
        else found.value + NODE_SIZE <= readPos && IsFirst(exe, NODE, found.value))
  }

  /** Search and stamp in the window that is in the buffer from `wbuf` to `rbufEnd`; `o` is where the
      window begins in the file. */
  method FindAndStamp(mem: array<byte>, wbuf: nat, rbufEnd: nat, ghost exe: seq<byte>, exeSize: nat, diffSize: nat,
                      ghost o: nat, ghost to: nat)
    returns (isFound: bool, ghost found: Option<nat>)
    requires wbuf <= rbufEnd <= mem.Length && exeSize == |exe|
    requires o <= to && o + (rbufEnd - wbuf) <= |exe| && to <= o + (rbufEnd - wbuf) && (to == 0 || o + NODE_SIZE == to)
    requires Searched(exe, to, None)
    requires mem[wbuf..rbufEnd] == exe[o..o + (rbufEnd - wbuf)]
    modifies mem
    ensures isFound == found.Some?
    ensures Searched(exe, o + (rbufEnd - wbuf), found) && (found.Some? ==> o <= found.value)
    ensures mem[wbuf..rbufEnd] == Target(exe, found, diffSize)[o..o + (rbufEnd - wbuf)]
  {
    hide Le, Stamp, OccursAt, IsFirst, Absent;
    ghost var end := o + (rbufEnd - wbuf);
    var pos := Search(mem, wbuf, rbufEnd, NODE);
    if pos == rbufEnd {
      WindowAbsent(exe, NODE, o, to, end);
      return false, None;
    }
    ghost var p := pos - wbuf;
    FirstFits(mem[wbuf..rbufEnd], NODE, p);
    WindowFirst(exe, NODE, o, to, end, p);
    ghost var before := mem[..];
    StampNode(mem, pos + GUID_SIZE, exeSize, 4);
    ghost var middle := mem[..];
    StampNode(mem, pos + GUID_SIZE + 4, diffSize, 8);
    TwoStamps(before, middle, mem[..], pos, wbuf, rbufEnd, exeSize, diffSize);
    StampOfPiece(exe, o + p, |exe|, diffSize, o, end);
    assert mem[wbuf..rbufEnd] == mem[..][wbuf..rbufEnd];
    return true, Some(o + p);
  }

  lemma FirstFits(s: seq<byte>, sub: seq<byte>, p: nat)
    requires IsFirst(s, sub, p)
    ensures p + |sub| <= |s|
  {
  }

  lemma TwoStamps(m0: seq<byte>, m1: seq<byte>, m2: seq<byte>, pos: nat, wbuf: nat, end: nat, offset: nat, size: nat)
    requires wbuf <= pos && pos + NODE_SIZE <= end <= |m0|
    requires m1 == m0[..pos + GUID_SIZE] + Le(offset, 4) + m0[pos + GUID_SIZE + 4..]
    requires m2 == m1[..pos + GUID_SIZE + 4] + Le(size, 8) + m1[pos + NODE_SIZE..]
    ensures |m2| == |m0| && m2[wbuf..end] == Stamp(m0[wbuf..end], pos - wbuf, offset, size)
  {
    hide Le;
    assert m2 == m0[..pos + GUID_SIZE] + (Le(offset, 4) + Le(size, 8)) + m0[pos + NODE_SIZE..];
  }

  /** The chunk, behind the bytes carried over. */
  method ReadChunk(mem: array<byte>, exe: seq<byte>, readPos: nat, readLen: nat)
    requires NODE_SIZE + readLen <= mem.Length && readPos + readLen <= |exe|
    modifies mem
    ensures mem[..NODE_SIZE] == old(mem[..NODE_SIZE])
    ensures mem[..NODE_SIZE + readLen][NODE_SIZE..] == exe[readPos..readPos + readLen]
    ensures mem[..NODE_SIZE + readLen][..NODE_SIZE] == mem[..NODE_SIZE]
  {
    forall i | 0 <= i < readLen {
      mem[NODE_SIZE + i] := exe[readPos + i];
    }
    ghost var got, part := mem[..NODE_SIZE + readLen][NODE_SIZE..], exe[readPos..readPos + readLen];
    forall i | 0 <= i < readLen ensures got[i] == part[i] {
      assert mem[NODE_SIZE + i] == exe[readPos + i];
    }
  }

  /** The last bytes of the window are carried over. */
  method KeepTail(mem: array<byte>, rbufEnd: nat)
    requires NODE_SIZE <= rbufEnd <= mem.Length
    modifies mem
    ensures mem[..NODE_SIZE] == old(mem[rbufEnd - NODE_SIZE..rbufEnd])
  {
    ghost var tail := mem[rbufEnd - NODE_SIZE..rbufEnd];
    forall i | 0 <= i < NODE_SIZE {
      mem[i] := mem[rbufEnd - NODE_SIZE + i];
    }
    ghost var got := mem[..NODE_SIZE];
    forall i | 0 <= i < NODE_SIZE ensures got[i] == tail[i] {
      assert got[i] == mem[i];
    }
  }

  /** Reads the next chunk behind the bytes carried over, and finds and stamps the node when it lies
      in the window. */
  method NextChunk(mem: array<byte>, exe: seq<byte>, diffSize: nat, readPos: nat, readLen: nat, isFound: bool,
                   ghost found: Option<nat>)
    returns (isFound1: bool, ghost found1: Option<nat>)
    requires NODE_SIZE + readLen <= mem.Length && readPos + readLen <= |exe|
    requires isFound == found.Some? && Searched(exe, readPos, found)
    requires readPos > 0 ==>
               NODE_SIZE <= readPos && mem[..NODE_SIZE] == Target(exe, found, diffSize)[readPos - NODE_SIZE..readPos]
    modifies mem
    ensures isFound1 == found1.Some? && Searched(exe, readPos + readLen, found1)
    ensures var wbuf, o := if readPos != 0 then 0 else NODE_SIZE, if readPos != 0 then readPos - NODE_SIZE else 0;
      && Target(exe, found1, diffSize)[..o] == Target(exe, found, diffSize)[..o]
      && mem[wbuf..NODE_SIZE + readLen] == Target(exe, found1, diffSize)[o..readPos + readLen]
  {
    hide Stamp, OccursAt, IsFirst, Absent;
    ghost var t := Target(exe, found, diffSize);
    var rbufEnd := NODE_SIZE + readLen;
    var wbuf := if readPos != 0 then 0 else NODE_SIZE;
    ghost var o := if readPos != 0 then readPos - NODE_SIZE else 0;
    ReadChunk(mem, exe, readPos, readLen);
    isFound1, found1 := isFound, found;
    if found.Some? {
      StampElsewhere(exe, found.value, |exe|, diffSize, readPos, readPos + readLen);
    }
    WindowJoin(mem[..rbufEnd], t, readPos, readLen);
    assert mem[wbuf..rbufEnd] == mem[..rbufEnd][wbuf..];
    if !isFound {
      isFound1, found1 := FindAndStamp(mem, wbuf, rbufEnd, exe, |exe|, diffSize, o, readPos);
      if found1.Some? {
        FoundFits(exe, readPos + readLen, found1);
        StampElsewhere(exe, found1.value, |exe|, diffSize, 0, o);
        assert exe[0..o] == exe[..o] && Stamp(exe, found1.value, |exe|, diffSize)[0..o] == Stamp(exe, found1.value, |exe|, diffSize)[..o];
      }
    } else {
      SearchedLonger(exe, readPos, readPos + readLen, found);
    }
  }

  lemma FoundFits(exe: seq<byte>, readPos: nat, found: Option<nat>)
    requires Searched(exe, readPos, found) && found.Some?
    ensures found.value + NODE_SIZE <= readPos <= |exe|
  {
  }

  lemma SearchedLonger(exe: seq<byte>, a: nat, b: nat, found: Option<nat>)
    requires Searched(exe, a, found) && found.Some? && a <= b <= |exe|
    ensures Searched(exe, b, found)
  {
  }

  /** Carried bytes and chunk together. */
  lemma WindowJoin(w: seq<byte>, t: seq<byte>, readPos: nat, readLen: nat)
    requires |w| == NODE_SIZE + readLen && readPos + readLen <= |t|
    requires readPos > 0 ==> NODE_SIZE <= readPos && w[..NODE_SIZE] == t[readPos - NODE_SIZE..readPos]
    requires w[NODE_SIZE..] == t[readPos..readPos + readLen]
    ensures if readPos != 0 then w[0..] == t[readPos - NODE_SIZE..readPos + readLen]
            else w[NODE_SIZE..] == t[0..readLen]
  {
    if readPos != 0 {
      assert w == w[..NODE_SIZE] + w[NODE_SIZE..];
      assert t[readPos - NODE_SIZE..readPos] + t[readPos..readPos + readLen] == t[readPos - NODE_SIZE..readPos + readLen];
    }
  }

  /** Between two chunks: what is written, and what is carried over in front of the buffer. */
  ghost predicate Copied(mem: seq<byte>, out: seq<byte>, t: seq<byte>, readPos: nat)
    requires |mem| >= NODE_SIZE && readPos <= |t|
  {
    if readPos == 0 then out == []
    else if readPos < |t| then
      NODE_SIZE <= readPos && out == t[..readPos - NODE_SIZE]
      && mem[..NODE_SIZE] == t[readPos - NODE_SIZE..readPos]
    else out == t
  }

  /** One chunk: read, searched, stamped, written, and its tail carried over. */
  method CopyChunk(mem: array<byte>, exe: seq<byte>, diffSize: nat, readPos: nat, readLen: nat, isFound: bool,
                   out: seq<byte>, ghost found: Option<nat>)
    returns (isFound1: bool, out1: seq<byte>, ghost found1: Option<nat>)
    requires NODE_SIZE + readLen <= mem.Length && 0 < readLen && readPos + readLen <= |exe|
    requires readPos + readLen < |exe| ==> readLen >= NODE_SIZE
    requires isFound == found.Some? && Searched(exe, readPos, found)
    requires Copied(mem[..], out, Target(exe, found, diffSize), readPos)
    modifies mem
    ensures isFound1 == found1.Some? && Searched(exe, readPos + readLen, found1)
    ensures Copied(mem[..], out1, Target(exe, found1, diffSize), readPos + readLen)
  {
    hide Target, Searched, Copied, Stamp, OccursAt, IsFirst, Absent;
    ghost var t := Target(exe, found, diffSize);
    CarriedBytes(mem, out, t, readPos);
    isFound1, found1 := NextChunk(mem, exe, diffSize, readPos, readLen, isFound, found);
    var wbuf := if readPos != 0 then 0 else NODE_SIZE;
    var rbufEnd := NODE_SIZE + readLen;
    var wbufEnd := if readPos + readLen < |exe| then rbufEnd - NODE_SIZE else rbufEnd;
    ghost var t1 := Target(exe, found1, diffSize);
    ghost var w := mem[wbuf..rbufEnd];
    WrittenSoFar(w, out, t, t1, readPos, readLen);
    out1 := out + mem[wbuf..wbufEnd];
    ArraySlices(mem, wbuf, rbufEnd - NODE_SIZE, rbufEnd);
    KeepTail(mem, rbufEnd);
    MakeCopied(mem, out1, t1, readPos + readLen);
  }

  lemma ArraySlices(mem: array<byte>, a: nat, b: nat, c: nat)
    requires b <= c <= mem.Length && a <= c
    ensures a <= b ==> mem[a..b] == mem[a..c][..b - a] && mem[b..c] == mem[a..c][b - a..]
  {
  }

  lemma MakeCopied(mem: array<byte>, out: seq<byte>, t: seq<byte>, readPos: nat)
    requires mem.Length >= NODE_SIZE && 0 < readPos <= |t|
    requires readPos < |t| ==>
               && NODE_SIZE <= readPos && out == t[..readPos - NODE_SIZE]
               && mem[..NODE_SIZE] == t[readPos - NODE_SIZE..readPos]
    requires readPos == |t| ==> out == t
    ensures Copied(mem[..], out, t, readPos)
  {
    assert mem[..][..NODE_SIZE] == mem[..NODE_SIZE];
  }

  /** The program file is copied in chunks of `bufSize`, its node stamped on the way. */
  method CopyProgram(exe: seq<byte>, diffSize: nat, bufSize: nat)
    returns (isFound: bool, out: seq<byte>)
    requires bufSize >= NODE_SIZE
    ensures exists found: Option<nat> ::
              isFound == found.Some? && Searched(exe, |exe|, found) && out == Target(exe, found, diffSize)
  {
    hide Stamp, OccursAt, IsFirst, Absent;
    var mem := new byte[NODE_SIZE + bufSize](_ => 0);
    ghost var found: Option<nat> := None;
    isFound, out := false, [];
    NothingSearched(exe);
    var readPos: nat := 0;
    while readPos < |exe|
      invariant readPos <= |exe| && isFound == found.Some? && Searched(exe, readPos, found)
      invariant Copied(mem[..], out, Target(exe, found, diffSize), readPos)
    {
      var readLen := bufSize;
      if readLen + readPos > |exe| {
        readLen := |exe| - readPos;
      }
      isFound, out, found := CopyChunk(mem, exe, diffSize, readPos, readLen, isFound, out, found);
      readPos := readPos + readLen;
    }
  }

  lemma NothingSearched(exe: seq<byte>)
    ensures Searched(exe, 0, None)
  {
  }

  lemma CarriedBytes(mem: array<byte>, out: seq<byte>, t: seq<byte>, readPos: nat)
    requires mem.Length >= NODE_SIZE && readPos < |t| && Copied(mem[..], out, t, readPos)
    ensures readPos > 0 ==> NODE_SIZE <= readPos && mem[..NODE_SIZE] == t[readPos - NODE_SIZE..readPos]
    ensures out == t[..if readPos != 0 then readPos - NODE_SIZE else 0]
  {
    assert mem[..][..NODE_SIZE] == mem[..NODE_SIZE];
  }

  /** What is written of a window, and what is kept of it. */
  lemma WrittenSoFar(w: seq<byte>, out: seq<byte>, t: seq<byte>, t1: seq<byte>, readPos: nat, readLen: nat)
    requires |t1| == |t| && readPos + readLen <= |t| && (readPos > 0 ==> NODE_SIZE <= readPos)
    requires var o := if readPos != 0 then readPos - NODE_SIZE else 0;
      out == t[..o] && t1[..o] == t[..o] && w == t1[o..readPos + readLen]
    ensures readPos + readLen < |t| && NODE_SIZE <= |w| ==>
              && out + w[..|w| - NODE_SIZE] == t1[..readPos + readLen - NODE_SIZE]
              && w[|w| - NODE_SIZE..] == t1[readPos + readLen - NODE_SIZE..readPos + readLen]
    ensures readPos + readLen == |t| ==> out + w == t1
  {
  }

  /** The diff is copied behind the program in chunks. */
  method CopyDiff(program: seq<byte>, diff: seq<byte>, bufSize: nat) returns (out: seq<byte>)
    requires bufSize > 0
    ensures out == program + diff
  {
    out := program;
    var readPos: nat := 0;
    assert diff[0..0] == [] && program + [] == program;
    while readPos < |diff|
      invariant readPos <= |diff| && out == program + diff[0..readPos]
    {
      var readLen := bufSize;
      if readLen + readPos > |diff| {
        readLen := |diff| - readPos;
      }
      AppendSlices(program, diff, 0, readPos, readPos + readLen);
      out := out + diff[readPos..readPos + readLen];
      readPos := readPos + readLen;
    }
    assert diff[0..|diff|] == diff;
  }

  /** `createSfx_notCheckDiffFile_byStream`: fails when the program is too long for the offset or
      holds no node; else the first node is stamped, wherever the borders of the chunks lie, and the
      diff follows. */
  method CreateSfx(exe: seq<byte>, diff: seq<byte>, bufSize: nat)
    returns (ok: bool, out: seq<byte>, ghost p: nat)
    requires bufSize >= NODE_SIZE
    ensures ok <==> |exe| < TWO_32 && !Absent(exe, NODE)
    ensures ok ==> IsFirst(exe, NODE, p) && p + NODE_SIZE <= |exe| && out == Stamp(exe, p, |exe|, |diff|) + diff
  {
    hide Stamp, OccursAt;
    p := 0;
    if |exe| >= TWO_32 {
      return false, [], p;
    }
    ok, out := CopyProgram(exe, |diff|, bufSize);
    ghost var found: Option<nat> :|
      ok == found.Some? && Searched(exe, |exe|, found) && out == Target(exe, found, |diff|);
    assert exe[..|exe|] == exe;
    if !ok {
      return;
    }
    p := found.value;
    out := CopyDiff(out, diff, bufSize);
  }
}
