/** The encoder object of one target window (`vc_encoder`), working on its arrays in place. */
module VcEncoder {
  import opened Bytes
  import opened PackedUInt
  import opened AddrCache
  import opened InstCoder
  import opened Covers
  import opened WindowCodes

  /** The instructions behind the gap: the COPY of the first cover and all that follows. */
  function BehindGap(cs: seq<Cover>, end: nat, e: Env, cache: Cache): seq<VcCode>
    requires end < TWO_64 && cache.Valid()
  {
    if cs == [] || cs[0].newPos >= end || cs[0].NewEnd() > end then []
    else
      [CopyFor(cs[0], e, cache)] + Codes(cs[1..], cs[0].NewEnd(), end, e, cache.Update(CopyAddr(cs[0], e)))
  }

  /** The COPY moves from what is owed to what is done. */
  lemma {:induction false} CopyMoves(done: seq<VcCode>, cs: seq<Cover>, end: nat, e: Env, cache: Cache, all: seq<VcCode>)
    requires end < TWO_64 && cache.Valid() && cs != [] && done + BehindGap(cs, end, e, cache) == all
    requires cs[0].newPos <= end && cs[0].length > 0
    ensures cs[0].NewEnd() > end ==> done == all
    ensures cs[0].NewEnd() <= end ==>
              (done + [CopyFor(cs[0], e, cache)])
              + Codes(cs[1..], cs[0].NewEnd(), end, e, cache.Update(CopyAddr(cs[0], e))) == all
  {
    hide Codes, CopyFor;
    if cs[0].NewEnd() > end {
      assert done + [] == done;
    }
  }

  lemma {:induction false} GapCodesFirst(cs: seq<Cover>, here: nat, end: nat, e: Env, cache: Cache, last: nat)
    requires here <= end < TWO_64 && cache.Valid() && Ordered(cs, here, last)
    ensures var stop := if cs == [] || end <= cs[0].newPos then end else cs[0].newPos;
      Codes(cs, here, end, e, cache) == AddFor(stop - here) + BehindGap(cs, end, e, cache)
  {
  }

  /** Moving the gap from what is owed to what is done. */
  lemma {:induction false} GapMoves(done: seq<VcCode>, cs: seq<Cover>, here: nat, newPos: nat, end: nat, e: Env,
                                    cache: Cache, last: nat, all: seq<VcCode>)
    requires here <= end < TWO_64 && cache.Valid() && Ordered(cs, here, last)
    requires newPos == if cs == [] then end else cs[0].newPos
    requires done + Codes(cs, here, end, e, cache) == all
    ensures newPos >= end ==> done + AddFor(end - here) == all
    ensures newPos < end ==> done + AddFor(newPos - here) + BehindGap(cs, end, e, cache) == all
    ensures here == newPos ==> done + BehindGap(cs, end, e, cache) == all
  {
    GapCodesFirst(cs, here, end, e, cache, last);
    assert newPos >= end ==> BehindGap(cs, end, e, cache) == [];
    NoGap();
    hide Codes, AddFor, BehindGap;
    var gap := AddFor((if newPos < end then newPos else end) - here);
    Regroup(done, gap, BehindGap(cs, end, e, cache));
    EmptyEnds(done, gap);
  }

  lemma NoGap()
    ensures AddFor(0) == []
  {
  }

  lemma EmptyEnds(done: seq<VcCode>, gap: seq<VcCode>)
    ensures gap + [] == gap && done + [] == done
  {
  }

  class Encoder {
    const sameArray: array<u64>
    /** What the six subtracting modes subtract: 0, the HERE value, and the near array. */
    const selfHereNear: array<u64>
    var nearIndex: u64
    var here: nat
    var outInst: seq<byte>
    var outAddr: seq<byte>
    var prevCode: VcCode
    var curCode: VcCode

    ghost predicate Valid()
      reads this, sameArray, selfHereNear
    {
      && sameArray != selfHereNear
      && sameArray.Length == SAME_SIZE && selfHereNear.Length == NEAR0 + NEAR_SIZE
      && selfHereNear[SELF] == 0
      && ValidCoder(TheCoder())
      && (curCode == NoCode || ValidCode(curCode))
    }

    ghost function TheCache(): Cache
      reads this, sameArray, selfHereNear
      requires selfHereNear.Length == NEAR0 + NEAR_SIZE
    {
      Cache(selfHereNear[NEAR0..], sameArray[..], nearIndex)
    }

    ghost function TheCoder(): Coder
      reads this
    {
      Coder(prevCode, outInst, outAddr)
    }

    constructor ()
      ensures Valid() && fresh(sameArray) && fresh(selfHereNear)
      ensures TheCache() == EmptyCache() && TheCoder() == START && curCode == NoCode
    {
      sameArray := new u64[SAME_SIZE](_ => 0);
      selfHereNear := new u64[NEAR0 + NEAR_SIZE](_ => 0);
      nearIndex, here := 0, 0;
      outInst, outAddr := [], [];
      prevCode, curCode := NoCode, NoCode;
      new;
      assert sameArray[..] == Zeros(SAME_SIZE);
      assert selfHereNear[NEAR0..] == Zeros(NEAR_SIZE);
    }

    /** `_get_mode`: the loop over the subtracting modes, then the SAME array. */
    method GetMode(targetPos: nat, srcWindowLen: nat, addr: u64) returns (mode: nat, sub: u64)
      requires Valid()
      modifies selfHereNear
      ensures Valid() && TheCache() == old(TheCache())
      ensures (mode, sub) == Pick(TheCache(), addr, Wrap64(srcWindowLen + here - targetPos))
    {
      ghost var c, h := TheCache(), Wrap64(srcWindowLen + here - targetPos);
      selfHereNear[HERE] := Wrap64(addr * 2 - Wrap64(srcWindowLen + here - targetPos));
      assert TheCache() == c;
      var minSubAddr, minMode := addr, 0;
      var i := 0;
      while i < SAME0
        invariant 0 <= i <= SAME0 && Valid() && TheCache() == c
        invariant selfHereNear[HERE] == Wrap64(addr * 2 - h)
        invariant PickFrom(c, addr, h, i, minSubAddr, minMode) == Pick(c, addr, h)
      {
        var subAddr := Wrap64(addr - selfHereNear[i]);
        assert selfHereNear[i] == Base(c, addr, h, i);
        if subAddr <= 127 {
          return i, subAddr;
        }
        if subAddr < minSubAddr {
          minSubAddr, minMode := subAddr, i;
        }
        i := i + 1;
      }
      var samei := addr % SAME_SIZE;
      if sameArray[samei] == addr {
        return samei / 256 + SAME0, samei % 256;
      }
      return minMode, minSubAddr;
    }

    method EmitAddr(mode: nat, addr: u64)
      modifies this`outAddr
      ensures outAddr == old(outAddr) + (if mode < SAME0 then Pack(addr) else [addr % 256])
    {
      if mode < SAME0 {
        var code := PackUInt(addr);
        outAddr := outAddr + code;
      } else {
        outAddr := outAddr + [addr % 256];
      }
    }

    method EmitSize(size: u64)
      modifies this`outInst
      ensures outInst == old(outInst) + Pack(size)
    {
      var code := PackUInt(size);
      outInst := outInst + code;
    }

    /** The pair of an ADD and a COPY, when the code table has it. */
    method EmitAddCopy() returns (done: bool)
      requires Valid() && prevCode.AddCode? && curCode.CopyCode? && prevCode.size <= 4
      modifies this`outInst, this`outAddr
      ensures done == Fused(prevCode, curCode).Some?
      ensures !done ==> outInst == old(outInst) && outAddr == old(outAddr)
      ensures done ==> outInst == old(outInst) + [Fused(prevCode, curCode).value]
      ensures done ==> outAddr == old(outAddr) + AddrBytes(curCode)
    {
      var inst: byte := 0;
      if curCode.size == 4 && curCode.mode >= 6 {
        inst := 235 + (curCode.mode - 6) * 4 + (prevCode.size - 1);
      } else if Wrap64(curCode.size - 4) <= 2 && curCode.mode < 6 {
        inst := 163 + curCode.mode * 12 + (prevCode.size - 1) * 3 + (curCode.size - 4);
      } else {
        return false;
      }
      outInst := outInst + [inst];
      EmitAddr(curCode.mode, curCode.addr);
      return true;
    }

    /** The pair of `prevCode` and `curCode`, when the code table has it. */
    method EmitPair() returns (done: bool)
      requires Valid() && prevCode != NoCode && curCode != NoCode
      modifies this`prevCode, this`curCode, this`outInst, this`outAddr
      ensures done == Fused(old(prevCode), old(curCode)).Some?
      ensures !done ==> prevCode == old(prevCode) && curCode == old(curCode) && TheCoder() == old(TheCoder())
      ensures done ==> curCode == NoCode && TheCoder() == Push(old(TheCoder()), old(curCode))
    {
      if prevCode.AddCode? {
        if prevCode.size > 4 || !curCode.CopyCode? {
          return false;
        }
        done := EmitAddCopy();
        if !done {
          return;
        }
      } else {
        if prevCode.size != 4 || !curCode.AddCode? || curCode.size != 1 {
          return false;
        }
        outInst := outInst + [247 + prevCode.mode];
        EmitAddr(prevCode.mode, prevCode.addr);
      }
      prevCode, curCode := NoCode, NoCode;
      return true;
    }

    method EmitInst(inst: byte)
      modifies this`outInst
      ensures outInst == old(outInst) + [inst]
    {
      outInst := outInst + [inst];
    }

    /** The instruction byte of `prevCode` and its size, when the table does not have it. */
    method EmitInstOfOne()
      requires Valid() && prevCode != NoCode
      modifies this`outInst
      ensures outInst == old(outInst) + Single(prevCode)
    {
      hide Pack;
      ghost var before := outInst;
      if prevCode.AddCode? {
        if prevCode.size <= 17 {
          EmitInst(prevCode.size + 1);
        } else {
          EmitInst(1);
          EmitSize(prevCode.size);
          assert outInst == before + ([1] + Pack(prevCode.size));
        }
      } else {
        if Wrap64(prevCode.size - 4) <= 14 {
          EmitInst(19 + prevCode.mode * 16 + (prevCode.size - 3));
        } else {
          EmitInst(19 + prevCode.mode * 16);
          EmitSize(prevCode.size);
          assert outInst == before + ([19 + prevCode.mode * 16] + Pack(prevCode.size));
        }
      }
    }

    /** `prevCode` on its own. */
    method EmitSingle()
      requires Valid() && prevCode != NoCode
      modifies this`outInst, this`outAddr
      ensures outInst == old(outInst) + Single(prevCode)
      ensures outAddr == old(outAddr) + AddrBytes(prevCode)
    {
      EmitInstOfOne();
      if prevCode.CopyCode? {
        EmitAddr(prevCode.mode, prevCode.addr);
      }
    }

    /** `emit_code`: with a current instruction it looks one instruction ahead, without one it
        flushes. */
    method EmitCode()
      requires Valid()
      modifies this`prevCode, this`curCode, this`outInst, this`outAddr
      ensures Valid() && curCode == NoCode
      ensures TheCoder() == if old(curCode) == NoCode then Flush(old(TheCoder()))
                            else Push(old(TheCoder()), old(curCode))
    {
      var hadCode := curCode != NoCode;
      if prevCode == NoCode {
        prevCode, curCode := curCode, prevCode;
      }
      if prevCode == NoCode {
        return;
      }
      if curCode == NoCode && hadCode {
        return;
      }
      if curCode != NoCode {
        var done := EmitPair();
        if done {
          return;
        }
      }
      EmitSingle();
      prevCode := curCode;
      curCode := NoCode;
    }

    /** The ADD of a gap, if there is one. */
    method EmitAdd(targetInc: nat, ghost done: seq<VcCode>)
      requires Valid() && curCode == NoCode && targetInc < TWO_64
      requires ValidCodes(done) && TheCoder() == Run(done)
      modifies this`here, this`prevCode, this`curCode, this`outInst, this`outAddr
      ensures Valid() && curCode == NoCode && here == old(here) + targetInc
      ensures ValidCodes(done + AddFor(targetInc)) && TheCoder() == Run(done + AddFor(targetInc))
    {
      if targetInc > 0 {
        curCode := AddCode(targetInc);
        EmitCode();
        here := here + targetInc;
        assert (done + [AddCode(targetInc)])[..|done|] == done;
      } else {
        assert done + [] == done;
      }
    }

    /** The COPY of a cover that starts at `here`, and the cache update. */
    method EmitCopy(c: Cover, ghost e: Env, targetPos: nat, srcPos: nat, srcLen: nat, ghost done: seq<VcCode>)
      requires Valid() && curCode == NoCode && 0 < c.length < TWO_64 && here == c.newPos
      requires e == Env(targetPos, srcPos, srcLen)
      requires ValidCodes(done) && TheCoder() == Run(done)
      modifies this, sameArray, selfHereNear
      ensures Valid() && curCode == NoCode && here == c.NewEnd()
      ensures ValidCode(CopyFor(c, e, old(TheCache())))
      ensures TheCoder() == Run(done + [CopyFor(c, e, old(TheCache()))])
      ensures TheCache() == old(TheCache()).Update(CopyAddr(c, e))
    {
      CopyIsValid(c, e, TheCache());
      ghost var copy := CopyFor(c, e, TheCache());
      var addr := Wrap64(c.oldPos - srcPos);
      var mode, sub := GetMode(targetPos, srcLen, addr);
      curCode := CopyCode(c.length, mode, sub);
      assert curCode == copy;
      EmitCode();
      assert (done + [copy])[..|done|] == done;
      here := here + c.length;
      nearIndex := UpdateAddr(sameArray, selfHereNear, NEAR0, nearIndex, addr);
    }

    /** What is still to be emitted from the state between two covers. */
    ghost predicate Owes(done: seq<VcCode>, cs: seq<Cover>, end: nat, e: Env, last: nat, all: seq<VcCode>)
      reads this, sameArray, selfHereNear
    {
      && Valid() && curCode == NoCode && here <= end < TWO_64
      && ValidCodes(done) && TheCoder() == Run(done)
      && Ordered(cs, here, last)
      && done + Codes(cs, here, end, e, TheCache()) == all
    }

    /** The state behind the gap, in front of the cover at `here`. */
    ghost predicate AtCover(newPos: nat, done: seq<VcCode>, cs: seq<Cover>, end: nat, e: Env, all: seq<VcCode>)
      reads this, sameArray, selfHereNear
    {
      && Valid() && curCode == NoCode && here == newPos <= end < TWO_64
      && ValidCodes(done) && TheCoder() == Run(done)
      && done + BehindGap(cs, end, e, TheCache()) == all
    }

    /** The gap in front of the next cover (or of the window's end): the first part of a round. */
    method EncodeGap(newPos: nat, targetEnd: nat, ghost cs: seq<Cover>, ghost e: Env, ghost last: nat,
                     ghost done: seq<VcCode>, ghost all: seq<VcCode>)
      returns (stop: bool, ghost done1: seq<VcCode>)
      requires Owes(done, cs, targetEnd, e, last, all)
      requires newPos == if cs == [] then targetEnd else cs[0].newPos
      modifies this`here, this`prevCode, this`curCode, this`outInst, this`outAddr
      ensures Valid() && curCode == NoCode && ValidCodes(done1) && TheCoder() == Run(done1)
      ensures stop ==> done1 == all
      ensures !stop ==> TheCache() == old(TheCache()) && AtCover(newPos, done1, cs, targetEnd, e, all)
    {
      hide Codes, BehindGap, Ordered, Run;
      GapMoves(done, cs, here, newPos, targetEnd, e, TheCache(), last, all);
      if here < newPos {
        var targetInc := newPos - here;
        if here + targetInc > targetEnd {
          targetInc := targetEnd - here;
        }
        EmitAdd(targetInc, done);
        return here == targetEnd, done + AddFor(targetInc);
      }
      return false, done;
    }

    /** The COPY of the cover at `here`, unless it does not fit: the second part of a round. */
    method EncodeCover(c: Cover, targetEnd: nat, targetPos: nat, srcPos: nat, srcLen: nat, ghost cs: seq<Cover>,
                       ghost e: Env, ghost last: nat, ghost done: seq<VcCode>, ghost all: seq<VcCode>)
      returns (stop: bool, ghost done1: seq<VcCode>)
      requires cs != [] && c == cs[0] && c.length > 0 && Ordered(cs[1..], c.NewEnd(), last)
      requires AtCover(c.newPos, done, cs, targetEnd, e, all) && e == Env(targetPos, srcPos, srcLen)
      modifies this, sameArray, selfHereNear
      ensures stop ==> Valid() && curCode == NoCode && ValidCodes(done1) && TheCoder() == Run(done1) && done1 == all
      ensures !stop ==> Owes(done1, cs[1..], targetEnd, e, last, all)
    {
      hide Codes, CopyFor, BehindGap, Run, Ordered;
      CopyMoves(done, cs, targetEnd, e, TheCache(), all);
      if here + c.length > targetEnd {
        return true, done;
      }
      ghost var copy := CopyFor(c, e, TheCache());
      EmitCopy(c, e, targetPos, srcPos, srcLen, done);
      CopyIsValid(c, e, old(TheCache()));
      return false, done + [copy];
    }

    /** The loop of `encode` over the covers and the end of the window. */
    method EncodeLoop(covers: seq<Cover>, coveri: nat, targetPos: nat, targetEnd: nat, srcPos: nat, srcLen: nat,
                      ghost e: Env, ghost cs: seq<Cover>, ghost last: nat, ghost all: seq<VcCode>)
      requires coveri <= |covers| && e == Env(targetPos, srcPos, srcLen) && cs == covers[coveri..]
      requires Owes([], cs, targetEnd, e, last, all)
      modifies this, sameArray, selfHereNear
      ensures Valid() && curCode == NoCode && ValidCodes(all) && TheCoder() == Run(all)
    {
      ghost var done: seq<VcCode> := [];
      var i := coveri;
      while i <= |covers|
        invariant coveri <= i <= |covers| + 1
        invariant i <= |covers| ==> Owes(done, covers[i..], targetEnd, e, last, all)
        invariant i == |covers| + 1 ==>
                    Valid() && curCode == NoCode && ValidCodes(done) && TheCoder() == Run(done) && done == all
      {
        var newPos := if i < |covers| then covers[i].newPos else targetEnd;
        var length := if i < |covers| then covers[i].length else 0;
        var stop;
        stop, done := EncodeGap(newPos, targetEnd, covers[i..], e, last, done, all);
        if stop {
          break;
        }
        if length > 0 {
          assert covers[i..][1..] == covers[i + 1..];
          stop, done := EncodeCover(covers[i], targetEnd, targetPos, srcPos, srcLen, covers[i..], e, last, done, all);
          if stop {
            break;
          }
        } else {
          assert done + [] == done;
        }
        i := i + 1;
      }
    }

    /** `encode`: writes the instruction and the address section of a window. */
    method Encode(covers: seq<Cover>, coveri: nat, targetPos: nat, targetLen: nat, srcPos: nat, srcLen: nat,
                  ghost cs: seq<Cover>, ghost last: nat)
      requires coveri <= |covers| && cs == covers[coveri..]
      requires Valid() && TheCache() == EmptyCache() && TheCoder() == START && curCode == NoCode
      requires targetPos + targetLen < TWO_64 && Ordered(cs, targetPos, last)
      modifies this, sameArray, selfHereNear
      ensures var codes := Codes(cs, targetPos, targetPos + targetLen, Env(targetPos, srcPos, srcLen), EmptyCache());
        && ValidCodes(codes)
        && outInst == InstOf(codes) && outAddr == AddrOf(codes)
        && prevCode == NoCode && curCode == NoCode
    {
      ghost var e := Env(targetPos, srcPos, srcLen);
      ghost var all := Codes(cs, targetPos, targetPos + targetLen, e, EmptyCache());
      here := targetPos;
      assert [] + all == all;
      EncodeLoop(covers, coveri, targetPos, targetPos + targetLen, srcPos, srcLen, e, cs, last, all);
      CoderWritesSections(all);
      EmitCode();
    }
  }
}
