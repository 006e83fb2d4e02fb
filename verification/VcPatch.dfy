/**
 The VCDIFF decoder as the patcher runs it (`_vcpatch_delta`): cached clips for the three sections, a
 cached output stream, and the address arrays updated in place. It computes exactly the decoding
 loop of `VcDecoder`.
 */
module VcPatch {
  import opened Bytes
  import opened PackedUInt
  import opened AddrCache
  import opened InstCoder
  import opened VcDecoder
  import opened OutCache
  import opened StreamClip
  import CodeTable

  // --- the state of the loop -------------------------------------------------------------------

  /** In an interleaved window one clip serves for all three sections, else they are apart. */
  ghost predicate Ready(out: OutStream, d: Clip, i: Clip, a: Clip)
    reads out, d, i, a
  {
    && out.Valid() && d.CanUnpack() && i.CanUnpack() && a.CanUnpack()
    && out.cacheBuf != d.cacheBuf && out.cacheBuf != i.cacheBuf && out.cacheBuf != a.cacheBuf
    && ((d == i && a == i)
        || (d != i && d != a && i != a
            && d.cacheBuf != i.cacheBuf && d.cacheBuf != a.cacheBuf && i.cacheBuf != a.cacheBuf))
  }

  ghost function StateOf(here: nat, cache: Cache, out: OutStream, d: Clip, i: Clip, a: Clip): State
    reads out, out.cacheBuf, d, d.cacheBuf, i, i.cacheBuf, a, a.cacheBuf
    requires Ready(out, d, i, a)
  {
    if d == i then State(here, cache, out.Contents(), [], i.Rest(), [], true)
    else State(here, cache, out.Contents(), d.Rest(), i.Rest(), a.Rest(), false)
  }

  /** What the source of COPY instructions holds: other data, or the output in front of the window. */
  ghost predicate Sources(src: Input, w: Window, out: OutStream)
    reads out
  {
    w.Valid() && (if src.Other? then w.src == src.data else w.src <= out.written)
  }

  // --- one instruction ---------------------------------------------------------------------------

  /** ADD and RUN. */
  method AddOrRun(out: OutStream, d: Clip, i: Clip, a: Clip, kind: nat, size: u64,
                  ghost w: Window, ghost here: nat, ghost cache: Cache)
    returns (ok: bool)
    requires Ready(out, d, i, a) && cache.Valid() && w.Valid() && kind < CodeTable.COPY
    requires here + size <= w.targetLen && here <= |out.Contents()|
    modifies out, out.cacheBuf, d`streamPos, d`cacheBegin, d.cacheBuf
    ensures Ready(out, d, i, a) && old(out.written) <= out.written
    ensures ok == DoOp(w, Op(kind, size), old(StateOf(here, cache, out, d, i, a))).Some?
    ensures ok ==> StateOf(here + size, cache, out, d, i, a)
                   == DoOp(w, Op(kind, size), old(StateOf(here, cache, out, d, i, a))).value
  {
    if kind == CodeTable.RUN {
      var v;
      ok, v := d.ReadUInt8();
      if ok {
        out.FillRun(v, size);
      }
    } else {
      ok := CopyFromClip(out, d, size);
    }
  }

  /** The address bytes of a COPY. */
  method ReadAddrFrom(a: Clip, mode: nat) returns (ok: bool, sub: u64)
    requires a.CanUnpack()
    modifies a`streamPos, a`cacheBegin, a.cacheBuf
    ensures a.CanUnpack()
    ensures ok == ReadAddr(mode, old(a.Rest())).Some?
    ensures ok ==> (sub, a.Rest()) == ReadAddr(mode, old(a.Rest())).value
  {
    if mode < SAME0 {
      ok, sub := a.UnpackUInt();
    } else {
      ok, sub := a.ReadUInt8();
    }
  }

  /** The address that the mode and the read value stand for. */
  method AddrFrom(sameArray: array<u64>, nearArray: array<u64>, ghost nearIndex: u64, mode: nat, sub: u64, srcHere: nat)
    returns (addr: u64)
    requires sameArray.Length == SAME_SIZE && nearArray.Length == NEAR_SIZE
    requires mode < 9 && (mode >= SAME0 ==> sub < 256)
    ensures addr == Decode(Cache(nearArray[..], sameArray[..], nearIndex), mode, sub, Wrap64(srcHere))
  {
    if mode == SELF {
      addr := sub;
    } else if mode == HERE {
      addr := Wrap64(Wrap64(srcHere) - sub);
    } else if mode < SAME0 {
      addr := Wrap64(sub + nearArray[mode - NEAR0]);
    } else {
      addr := sameArray[(mode - SAME0) * 256 + sub];
    }
  }

  /** Reads the next address of mode `mode` and updates the caches with it. */
  method NextAddr(a: Clip, sameArray: array<u64>, nearArray: array<u64>, nearIndex: u64, mode: nat, srcHere: nat)
    returns (ok: bool, addr: u64, newIndex: u64)
    requires a.CanUnpack() && mode < 9
    requires sameArray.Length == SAME_SIZE && nearArray.Length == NEAR_SIZE && sameArray != nearArray
    modifies a`streamPos, a`cacheBegin, a.cacheBuf, sameArray, nearArray
    ensures a.CanUnpack() && ok == ReadAddr(mode, old(a.Rest())).Some?
    ensures ok ==>
              var cache, r := old(Cache(nearArray[..], sameArray[..], nearIndex)), ReadAddr(mode, old(a.Rest())).value;
              && addr == Decode(cache, mode, r.0, Wrap64(srcHere)) && a.Rest() == r.1
              && Cache(nearArray[..], sameArray[..], newIndex) == cache.Update(addr)
  {
    hide Decode, ReadAddr, Clip.Rest, Cache.Update;
    addr, newIndex := 0, nearIndex;
    var sub;
    ok, sub := ReadAddrFrom(a, mode);
    if !ok {
      return;
    }
    addr := AddrFrom(sameArray, nearArray, nearIndex, mode, sub, srcHere);
    assert nearArray[0..] == nearArray[..];
    newIndex := UpdateAddr(sameArray, nearArray, 0, nearIndex, addr);
    assert nearArray[0..] == nearArray[..];
  }

  /** The part of a COPY from the output itself: `size` bytes from the address `addr` behind the source
      window on, at the position `here`. */
  ghost function SelfPart(w: Window, out: seq<byte>, addr: nat, here: nat, size: nat): Option<seq<byte>>
    requires here <= |out| && (size > 0 ==> addr >= w.srcLen)
  {
    if size == 0 then Some(out)
    else if addr - w.srcLen >= here then None
    else Some(SelfCopy(out, here - (addr - w.srcLen), size))
  }

  /** A COPY is its part from the source, then its part from the output. */
  lemma FastCopyParts(w: Window, out: seq<byte>, here: nat, addr: u64, size: nat)
    requires w.Valid() && here <= |out|
    ensures addr >= w.srcLen ==> FastCopy(w, out, here, addr, size) == SelfPart(w, out, addr, here, size)
    ensures addr < w.srcLen ==>
              var n := if addr + size <= w.srcLen then size else w.srcLen - addr;
              FastCopy(w, out, here, addr, size)
              == SelfPart(w, out + w.src[w.srcPos + addr..w.srcPos + addr + n], addr + n, here + n, size - n)
  {
    hide SelfCopy;
    if addr < w.srcLen && size == 0 {
      assert out + w.src[w.srcPos + addr..w.srcPos + addr] == out;
    }
  }

  /** The part of a COPY that lies in the source. */
  method CopySource(out: OutStream, src: Input, pos: nat, n: nat, ghost w: Window)
    requires out.Valid() && Sources(src, w, out) && pos + n <= |w.src|
    modifies out, out.cacheBuf
    ensures out.Valid() && old(out.written) <= out.written
    ensures out.Contents() == old(out.Contents()) + w.src[pos..pos + n]
  {
    hide Lagged;
    assert src.Written? ==> out.written[pos..pos + n] == w.src[pos..pos + n];
    out.CopyFromStream(src, pos, n);
  }

  /** The bytes of a COPY: first from the source, then from the output itself. */
  method CopyBytes(out: OutStream, src: Input, srcPos: nat, srcLen: nat, here: nat, address: u64, length: nat,
                   ghost w: Window)
    returns (ok: bool)
    requires out.Valid() && Sources(src, w, out) && w.srcPos == srcPos && w.srcLen == srcLen
    requires here <= |out.Contents()|
    modifies out, out.cacheBuf
    ensures out.Valid() && old(out.written) <= out.written
    ensures ok == FastCopy(w, old(out.Contents()), here, address, length).Some?
    ensures ok ==> out.Contents() == FastCopy(w, old(out.Contents()), here, address, length).value
  {
    hide SelfCopy, FastCopy, OutStream.Contents;
    var addr: nat, curHere, size: nat := address, here, length;
    FastCopyParts(w, out.Contents(), here, address, length);
    if addr < srcLen {
      var copyLen := if addr + size <= srcLen then size else srcLen - addr;
      CopySource(out, src, srcPos + addr, copyLen, w);
      curHere := curHere + copyLen;
      addr := addr + copyLen;
      size := size - copyLen;
    }
    if size > 0 {
      addr := addr - srcLen;
      if addr >= curHere {
        return false;
      }
      ok := out.CopyFromSelf(curHere - addr, size);
      return;
    }
    ok := true;
  }

  /** COPY. */
  method CopyCode(out: OutStream, d: Clip, i: Clip, a: Clip, src: Input, srcPos: nat, srcLen: nat, here: nat,
                  sameArray: array<u64>, nearArray: array<u64>, nearIndex: u64, kind: nat, size: u64, ghost w: Window)
    returns (ok: bool, newIndex: u64)
    requires Ready(out, d, i, a) && Sources(src, w, out) && w.srcPos == srcPos && w.srcLen == srcLen
    requires sameArray.Length == SAME_SIZE && nearArray.Length == NEAR_SIZE && sameArray != nearArray
    requires CodeTable.COPY <= kind < CodeTable.COPY + CodeTable.MODES
    requires here <= |out.Contents()|
    modifies out, out.cacheBuf, a`streamPos, a`cacheBegin, a.cacheBuf, sameArray, nearArray
    ensures Ready(out, d, i, a) && old(out.written) <= out.written
    ensures var st := old(StateOf(here, Cache(nearArray[..], sameArray[..], nearIndex), out, d, i, a));
      && ok == DoCopy(w, Op(kind, size), st).Some?
      && (ok ==> StateOf(here + size, Cache(nearArray[..], sameArray[..], newIndex), out, d, i, a)
                 == DoCopy(w, Op(kind, size), st).value)
  {
    hide FastCopy, Decode, ReadAddr, OutStream.Contents, Clip.Rest;
    var addr;
    ok, addr, newIndex := NextAddr(a, sameArray, nearArray, nearIndex, kind - CodeTable.COPY, srcLen + here);
    if ok {
      ok := CopyBytes(out, src, srcPos, srcLen, here, addr, size, w);
    }
  }

  /** One code of a pair: its size, and the instruction. */
  method DoCode(out: OutStream, d: Clip, i: Clip, a: Clip, src: Input, srcPos: nat, srcLen: nat, targetLen: nat,
                here: nat, sameArray: array<u64>, nearArray: array<u64>, nearIndex: u64, kind: nat, codeSize: nat,
                ghost w: Window, ghost st: State)
    returns (ok: bool, newHere: nat, newIndex: u64)
    requires Ready(out, d, i, a) && Sources(src, w, out)
    requires w.srcPos == srcPos && w.srcLen == srcLen && w.targetLen == targetLen
    requires sameArray.Length == SAME_SIZE && nearArray.Length == NEAR_SIZE && sameArray != nearArray
    requires kind < CodeTable.COPY + CodeTable.MODES && codeSize < 256
    requires here <= |out.Contents()|
    requires st == StateOf(here, Cache(nearArray[..], sameArray[..], nearIndex), out, d, i, a)
    modifies out, out.cacheBuf, sameArray, nearArray
    modifies d`streamPos, d`cacheBegin, d.cacheBuf, i`streamPos, i`cacheBegin, i.cacheBuf
    modifies a`streamPos, a`cacheBegin, a.cacheBuf
    ensures Ready(out, d, i, a) && old(out.written) <= out.written
    ensures var r := VcDecoder.DoCode(w, kind, codeSize, st);
      && ok == r.Some?
      && (ok ==> StateOf(newHere, Cache(nearArray[..], sameArray[..], newIndex), out, d, i, a) == r.value)
  {
    hide DoCopy, FastCopy, Decode, ReadAddr, Unpack, OutStream.Contents, Clip.Rest;
    newHere, newIndex := here, nearIndex;
    var size: u64 := codeSize;
    if codeSize == 0 {
      ok, size := i.UnpackUInt();
      if !ok {
        return;
      }
    }
    newHere := here + size;
    if newHere > targetLen {
      return false, newHere, newIndex;
    }
    if kind < CodeTable.COPY {
      ok := AddOrRun(out, d, i, a, kind, size, w, here, Cache(nearArray[..], sameArray[..], nearIndex));
    } else {
      ok, newIndex := CopyCode(out, d, i, a, src, srcPos, srcLen, here, sameArray, nearArray, nearIndex, kind, size, w);
    }
  }

  // --- the loop ------------------------------------------------------------------------------------

  /** One round of the decoding loop, for the code table entry `p` of the next instruction byte. */
  lemma {:induction false} LoopRound(w: Window, st: State, p: CodeTable.CodePair)
    requires w.Valid() && st.Valid() && st.here < w.targetLen && st.inst != []
    requires p == CodeTable.Standard(st.inst[0])
    ensures p.inst1 < CodeTable.COPY + CodeTable.MODES && p.size1 < 256
    ensures p.inst2 < CodeTable.COPY + CodeTable.MODES && p.size2 < 256
    ensures var st1 := VcDecoder.DoCode(w, p.inst1, p.size1, st.(inst := st.inst[1..]));
      Loop(w, st) == if st1.None? then None
                     else if p.inst2 == CodeTable.NOOP then Loop(w, st1.value)
                     else
                       var st2 := VcDecoder.DoCode(w, p.inst2, p.size2, st1.value);
                       if st2.None? then None else Loop(w, st2.value)
  {
  }

  /** One round: an instruction byte and its one or two codes. */
  method Round(out: OutStream, d: Clip, i: Clip, a: Clip, src: Input, srcPos: nat, srcLen: nat, targetLen: nat,
               here: nat, sameArray: array<u64>, nearArray: array<u64>, nearIndex: u64, ghost w: Window, ghost st: State)
    returns (ok: bool, newHere: nat, newIndex: u64, ghost st1: State)
    requires Ready(out, d, i, a) && Sources(src, w, out)
    requires w.srcPos == srcPos && w.srcLen == srcLen && w.targetLen == targetLen
    requires sameArray.Length == SAME_SIZE && nearArray.Length == NEAR_SIZE && sameArray != nearArray
    requires here < targetLen && here <= |out.Contents()|
    requires st == StateOf(here, Cache(nearArray[..], sameArray[..], nearIndex), out, d, i, a)
    modifies out, out.cacheBuf, sameArray, nearArray
    modifies d`streamPos, d`cacheBegin, d.cacheBuf, i`streamPos, i`cacheBegin, i.cacheBuf
    modifies a`streamPos, a`cacheBegin, a.cacheBuf
    ensures Ready(out, d, i, a) && old(out.written) <= out.written
    ensures !ok ==> Loop(w, st).None?
    ensures ok ==>
              && st1 == StateOf(newHere, Cache(nearArray[..], sameArray[..], newIndex), out, d, i, a)
              && st1.Valid() && newHere <= targetLen && |st1.inst| < |st.inst|
              && Loop(w, st) == Loop(w, st1)
  {
    hide Loop, VcDecoder.DoCode, OutStream.Contents, Clip.Rest;
    newHere, newIndex, st1 := here, nearIndex, st;
    var insti;
    ok, insti := i.ReadUInt8();
    if !ok {
      LoopStops(w, st);
      return;
    }
    var p := CodeTable.Lookup(insti);
    CodeTable.TableIsStandard(insti);
    LoopRound(w, st, p);
    ok, newHere, newIndex := DoCode(out, d, i, a, src, srcPos, srcLen, targetLen, here, sameArray, nearArray, nearIndex,
                                    p.inst1, p.size1, w, st.(inst := st.inst[1..]));
    if !ok {
      return;
    }
    st1 := StateOf(newHere, Cache(nearArray[..], sameArray[..], newIndex), out, d, i, a);
    if p.inst2 != CodeTable.NOOP {
      ok, newHere, newIndex := DoCode(out, d, i, a, src, srcPos, srcLen, targetLen, newHere, sameArray, nearArray,
                                      newIndex, p.inst2, p.size2, w, st1);
      if ok {
        st1 := StateOf(newHere, Cache(nearArray[..], sameArray[..], newIndex), out, d, i, a);
      }
    }
  }

  /** `_vcpatch_delta`: appends the target window, or fails, exactly as the decoding loop says. */
  method VcpatchDelta(out: OutStream, targetLen: nat, src: Input, srcPos: nat, srcLen: nat,
                      d: Clip, i: Clip, a: Clip, ghost w: Window)
    returns (ok: bool)
    requires Ready(out, d, i, a) && Sources(src, w, out)
    requires w.srcPos == srcPos && w.srcLen == srcLen && w.targetLen == targetLen
    modifies out, out.cacheBuf
    modifies d`streamPos, d`cacheBegin, d.cacheBuf, i`streamPos, i`cacheBegin, i.cacheBuf
    modifies a`streamPos, a`cacheBegin, a.cacheBuf
    ensures out.Valid() && old(out.written) <= out.written
    ensures var r := Loop(w, old(StateOf(0, EmptyCache(), out, d, i, a)));
      && ok == r.Some?
      && (ok ==> out.Contents() == r.value.out)
  {
    hide Loop;
    var sameArray := new u64[SAME_SIZE](_ => 0);
    var nearArray := new u64[NEAR_SIZE](_ => 0);
    assert sameArray[..] == Zeros(SAME_SIZE);
    assert nearArray[..] == Zeros(NEAR_SIZE);
    var here: nat, nearIndex: u64 := 0, 0;
    ghost var st0 := StateOf(0, EmptyCache(), out, d, i, a);
    ghost var st := st0;
    while here < targetLen
      invariant Ready(out, d, i, a) && Sources(src, w, out) && old(out.written) <= out.written
      invariant here <= targetLen && here <= |out.Contents()|
      invariant st == StateOf(here, Cache(nearArray[..], sameArray[..], nearIndex), out, d, i, a)
      invariant Loop(w, st) == Loop(w, st0)
      decreases |st.inst|
    {
      ok, here, nearIndex, st := Round(out, d, i, a, src, srcPos, srcLen, targetLen, here, sameArray, nearArray,
                                       nearIndex, w, st);
      if !ok {
        return;
      }
    }
    LoopStops(w, st);
    ok := true;
  }

  lemma {:induction false} LoopStops(w: Window, st: State)
    requires w.Valid() && st.Valid() && st.here <= w.targetLen
    requires st.here == w.targetLen || st.inst == []
    ensures Loop(w, st) == if st.here == w.targetLen then Some(st) else None
  {
  }
}
