/**
 Decoding one target window (`_vcpatch_delta`): the state the loop works on, one instruction,
 the whole loop, and what a COPY means byte by byte (section 3 of RFC 3284).
 */
module VcDecoder {
  import opened Bytes
  import opened PackedUInt
  import opened AddrCache
  import opened InstCoder
  import CodeTable

  /** Where COPY addresses below `srcLen` read from, and how much the window must produce. */
  datatype Window = Window(src: seq<byte>, srcPos: nat, srcLen: nat, targetLen: nat) {
    predicate Valid() {
      srcPos + srcLen <= |src|
    }

    function Segment(): (s: seq<byte>)
      requires Valid()
      ensures |s| == srcLen
    {
      src[srcPos..srcPos + srcLen]
    }
  }

  /** The loop's state: bytes of this window done, the address cache, all output so far, and the
      unread parts of the three sections (all in `inst` for an interleaved window). */
  datatype State = State(here: nat, cache: Cache, out: seq<byte>,
                         data: seq<byte>, inst: seq<byte>, addr: seq<byte>, interleaved: bool)
  {
    predicate Valid() {
      cache.Valid() && here <= |out|
    }
  }

  // --- copying ---------------------------------------------------------------------------------

  /** `_TOutStreamCache_copyFromSelf`: `n` more bytes, each the one `ahead` bytes before. */
  function SelfCopy(out: seq<byte>, ahead: nat, n: nat): (r: seq<byte>)
    requires 1 <= ahead <= |out|
    ensures |r| == |out| + n && out <= r
    decreases n
  {
    if n == 0 then out else SelfCopy(out + [out[|out| - ahead]], ahead, n - 1)
  }

  function Fill(v: byte, n: nat): (r: seq<byte>)
    ensures |r| == n && forall i :: 0 <= i < n ==> r[i] == v
  {
    seq(n, _ => v)
  }

  /** The COPY of the source: a part from the source window, the rest from the output. */
  function FastCopy(w: Window, out: seq<byte>, here: nat, addr: u64, size: nat): (r: Option<seq<byte>>)
    requires w.Valid() && here <= |out|
    ensures r.Some? ==> |r.value| == |out| + size && out <= r.value
  {
    var n := if addr >= w.srcLen then 0 else if addr + size <= w.srcLen then size else w.srcLen - addr;
    var out1 := if n == 0 then out else out + w.src[w.srcPos + addr..w.srcPos + addr + n];
    if size == n then Some(out1)
    else
      var from := addr + n - w.srcLen;
      if from >= here + n then None
      else Some(SelfCopy(out1, here + n - from, size - n))
  }

  /** The COPY of RFC 3284: byte by byte from the source window followed by the target so far. */
  function ByteCopy(u: seq<byte>, addr: nat, size: nat): (r: seq<byte>)
    requires addr < |u|
    ensures |r| == |u| + size && u <= r
    decreases size
  {
    if size == 0 then u else ByteCopy(u + [u[addr]], addr + 1, size - 1)
  }

  // --- reading the sections ----------------------------------------------------------------------

  function TakeData(st: State, n: nat): Option<(seq<byte>, State)> {
    if st.interleaved then
      if |st.inst| < n then None else Some((st.inst[..n], st.(inst := st.inst[n..])))
    else
      if |st.data| < n then None else Some((st.data[..n], st.(data := st.data[n..])))
  }

  function ReadAddr(mode: nat, s: seq<byte>): (r: Option<(u64, seq<byte>)>)
    ensures r.Some? ==> |r.value.1| < |s|
    ensures r.Some? && mode >= SAME0 ==> r.value.0 < 256
  {
    if mode < SAME0 then Unpack(s)
    else if s == [] then None
    else Some((s[0], s[1..]))
  }

  function TakeAddr(st: State, mode: nat): Option<(u64, State)> {
    if st.interleaved then
      var (v, rest) :- ReadAddr(mode, st.inst);
      Some((v, st.(inst := rest)))
    else
      var (v, rest) :- ReadAddr(mode, st.addr);
      Some((v, st.(addr := rest)))
  }

  // --- one instruction and the loop -----------------------------------------------------------------

  function DoCopy(w: Window, op: Op, st: State): (r: Option<State>)
    requires w.Valid() && st.Valid() && CodeTable.COPY <= op.kind < CodeTable.COPY + CodeTable.MODES
    ensures r.Some? ==>
              && r.value.Valid() && r.value.here == st.here + op.size
              && |r.value.out| == |st.out| + op.size && st.out <= r.value.out
              && |r.value.inst| <= |st.inst| && r.value.interleaved == st.interleaved
  {
    var mode := op.kind - CodeTable.COPY;
    var (sub, st1) :- TakeAddr(st, mode);
    var addr := Decode(st.cache, mode, sub, Wrap64(w.srcLen + st.here));
    var out :- FastCopy(w, st.out, st.here, addr, op.size);
    Some(st1.(here := st.here + op.size, cache := st.cache.Update(addr), out := out))
  }

  function DoOp(w: Window, op: Op, st: State): (r: Option<State>)
    requires w.Valid() && st.Valid() && op.kind < CodeTable.COPY + CodeTable.MODES
    ensures r.Some? ==>
              && r.value.Valid() && r.value.here == st.here + op.size <= w.targetLen
              && |r.value.out| == |st.out| + op.size && st.out <= r.value.out
              && |r.value.inst| <= |st.inst| && r.value.interleaved == st.interleaved
  {
    if st.here + op.size > w.targetLen then None
    else if op.kind == CodeTable.RUN then
      var (v, st1) :- TakeData(st, 1);
      Some(st1.(here := st.here + op.size, out := st.out + Fill(v[0], op.size)))
    else if op.kind < CodeTable.COPY then
      var (d, st1) :- TakeData(st, op.size);
      Some(st1.(here := st.here + op.size, out := st.out + d))
    else
      DoCopy(w, op, st)
  }

  /** One entry of a code table pair: its size may follow in the instruction section. */
  function DoCode(w: Window, kind: nat, size: nat, st: State): (r: Option<State>)
    requires w.Valid() && st.Valid() && kind < CodeTable.COPY + CodeTable.MODES && size < 256
    ensures r.Some? ==>
              && r.value.Valid() && r.value.here >= st.here && r.value.here <= w.targetLen
              && |r.value.out| - r.value.here == |st.out| - st.here && st.out <= r.value.out
              && |r.value.inst| <= |st.inst| && r.value.interleaved == st.interleaved
  {
    var (n, rest) :- ReadSize(size, st.inst);
    DoOp(w, Op(kind, n), st.(inst := rest))
  }

  /** The decoding loop; `None` is the failure return. */
  function Loop(w: Window, st: State): (r: Option<State>)
    requires w.Valid() && st.Valid() && st.here <= w.targetLen
    ensures r.Some? ==>
              && r.value.Valid() && r.value.here == w.targetLen && r.value.interleaved == st.interleaved
              && st.out <= r.value.out && |r.value.out| == |st.out| + (w.targetLen - st.here)
    decreases |st.inst|
  {
    if st.here == w.targetLen then Some(st)
    else if st.inst == [] then None
    else
      var p := CodeTable.Standard(st.inst[0]);
      var st1 :- DoCode(w, p.inst1, p.size1, st.(inst := st.inst[1..]));
      if p.inst2 == CodeTable.NOOP then Loop(w, st1)
      else
        var st2 :- DoCode(w, p.inst2, p.size2, st1);
        Loop(w, st2)
  }

  /** The state at the start of a window. */
  function Begin(out: seq<byte>, data: seq<byte>, inst: seq<byte>, addr: seq<byte>): (st: State)
    ensures st.Valid()
  {
    State(0, EmptyCache(), out, data, inst, addr, data == [] && addr == [])
  }

  // --- fast copy refines the byte by byte copy ------------------------------------------------------

  lemma {:induction false} SelfCopyIsByteCopy(pre: seq<byte>, out: seq<byte>, ahead: nat, n: nat)
    requires 1 <= ahead <= |out|
    ensures ByteCopy(pre + out, |pre| + |out| - ahead, n) == pre + SelfCopy(out, ahead, n)
    decreases n
  {
    if n != 0 {
      var b := out[|out| - ahead];
      assert (pre + out)[|pre| + |out| - ahead] == b;
      assert (pre + out) + [b] == pre + (out + [b]);
      SelfCopyIsByteCopy(pre, out + [b], ahead, n - 1);
    }
  }

  /** A copy that stays inside `u` appends a slice of it. */
  lemma {:induction false} ByteCopyInside(u: seq<byte>, addr: nat, n: nat, size: nat)
    requires addr + n <= |u| && addr < |u| && n <= size && addr + n < |u| + n
    ensures ByteCopy(u, addr, size) == ByteCopy(u + u[addr..addr + n], addr + n, size - n)
    decreases n
  {
    if n != 0 {
      var u1 := u + [u[addr]];
      ByteCopyInside(u1, addr + 1, n - 1, size - 1);
      assert u1[addr + 1..addr + n] == u[addr + 1..addr + n];
      assert u1 + u1[addr + 1..addr + n] == u + u[addr..addr + n];
    } else {
      assert u + u[addr..addr] == u;
    }
  }

  /** A self copy only looks at what it is allowed to reach. */
  lemma {:induction false} SelfCopyBehind(before: seq<byte>, out: seq<byte>, ahead: nat, n: nat)
    requires 1 <= ahead <= |out|
    ensures SelfCopy(before + out, ahead, n) == before + SelfCopy(out, ahead, n)
    decreases n
  {
    if n != 0 {
      var b := out[|out| - ahead];
      assert (before + out) + [b] == before + (out + [b]);
      SelfCopyBehind(before, out + [b], ahead, n - 1);
    }
  }

  /** How many bytes of a COPY come from the source window. */
  function FromSource(w: Window, addr: u64, size: nat): (n: nat)
    ensures n <= size
  {
    if addr >= w.srcLen then 0 else if addr + size <= w.srcLen then size else w.srcLen - addr
  }

  lemma FrontSlice(u: seq<byte>, t: seq<byte>, i: nat, j: nat)
    requires i <= j <= |u|
    ensures (u + t)[i..j] == u[i..j]
  {
    ghost var got, part := (u + t)[i..j], u[i..j];
    forall k | 0 <= k < j - i ensures got[k] == part[k] {
      assert (u + t)[i + k] == u[i + k];
    }
  }

  /** The part from the source window is a slice of source window and target. */
  lemma {:induction false} SourcePart(w: Window, before: seq<byte>, target: seq<byte>, addr: u64, size: nat)
    requires w.Valid() && addr < w.srcLen + |target|
    ensures var n := FromSource(w, addr, size);
      var part := (w.Segment() + target)[addr..addr + n];
      && (n < size ==> addr + n >= w.srcLen && addr + n - w.srcLen < |target| + n)
      && FastCopy(w, before + target, |target|, addr, size)
         == Some(if n == size then before + target + part
                 else SelfCopy(before + target + part, |target| + n - (addr + n - w.srcLen), size - n))
  {
    hide SelfCopy;
    var n := FromSource(w, addr, size);
    var part := (w.Segment() + target)[addr..addr + n];
    if n == 0 {
      assert part == [];
      assert before + target + part == before + target;
    } else {
      FrontSlice(w.Segment(), target, addr, addr + n);
      SliceOfSlice(w.src, w.srcPos, w.srcPos + w.srcLen, addr, addr + n);
    }
  }

  /** The target behind a COPY: a slice of source window and target, then a self copy. */
  function TargetAfter(w: Window, target: seq<byte>, addr: u64, size: nat): seq<byte>
    requires w.Valid() && addr < w.srcLen + |target|
  {
    var n := FromSource(w, addr, size);
    var target1 := target + (w.Segment() + target)[addr..addr + n];
    if n == size then target1 else SelfCopy(target1, |target| + n - (addr + n - w.srcLen), size - n)
  }

  lemma {:induction false} FastCopyTarget(w: Window, before: seq<byte>, target: seq<byte>, addr: u64, size: nat)
    requires w.Valid() && addr < w.srcLen + |target|
    ensures FastCopy(w, before + target, |target|, addr, size)
         == Some(before + TargetAfter(w, target, addr, size))
  {
    hide SelfCopy, FastCopy, FromSource;
    var n := FromSource(w, addr, size);
    SourcePart(w, before, target, addr, size);
    PartInRange(w, target, addr, size);
    var part := (w.Segment() + target)[addr..addr + n];
    Regroup(before, target, part);
    if n < size {
      SelfCopyBehind(before, target + part, |target| + n - (addr + n - w.srcLen), size - n);
    }
  }

  lemma PartInRange(w: Window, target: seq<byte>, addr: u64, size: nat)
    requires w.Valid() && addr < w.srcLen + |target|
    ensures addr + FromSource(w, addr, size) <= w.srcLen + |target|
    ensures FromSource(w, addr, size) < size ==> addr + FromSource(w, addr, size) >= w.srcLen
  {
  }

  lemma {:induction false} TargetAfterIsByteCopy(w: Window, target: seq<byte>, addr: u64, size: nat)
    requires w.Valid() && addr < w.srcLen + |target|
    ensures w.Segment() + TargetAfter(w, target, addr, size)
         == ByteCopy(w.Segment() + target, addr, size)
  {
    hide SelfCopy, ByteCopy, FromSource, Window.Segment;
    var seg := w.Segment();
    var n := FromSource(w, addr, size);
    PartInRange(w, target, addr, size);
    var part := (seg + target)[addr..addr + n];
    ByteCopyInside(seg + target, addr, n, size);
    Regroup(seg, target, part);
    if n < size {
      SelfCopyIsByteCopy(seg, target + part, |target| + n - (addr + n - w.srcLen), size - n);
    }
  }

  /** For every address before the current position, the two-part copy of the source succeeds and
      equals the byte by byte copy, also when it crosses the border between source window and
      target or overlaps its own output. `before` is the output of earlier windows. */
  lemma {:induction false} FastCopyIsByteCopy(w: Window, before: seq<byte>, target: seq<byte>, addr: u64, size: nat)
    requires w.Valid() && addr < w.srcLen + |target|
    ensures FastCopy(w, before + target, |target|, addr, size).Some?
    ensures var r := FastCopy(w, before + target, |target|, addr, size).value;
      && before <= r
      && w.Segment() + r[|before|..] == ByteCopy(w.Segment() + target, addr, size)
  {
    FastCopyTarget(w, before, target, addr, size);
    TargetAfterIsByteCopy(w, target, addr, size);
    var after := TargetAfter(w, target, addr, size);
    assert (before + after)[|before|..] == after;
  }

  /** The copy fails exactly for addresses that are not before the current position. */
  lemma FastCopyFails(w: Window, out: seq<byte>, here: nat, addr: u64, size: nat)
    requires w.Valid() && here <= |out| && size > 0
    ensures FastCopy(w, out, here, addr, size).None? <==> addr >= w.srcLen + here
  {
  }
}
