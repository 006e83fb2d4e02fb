/**
 What the encoder puts into one target window: the instruction list of `vc_encoder::encode`
 and the bytes under no cover, as functions of the covers from the window's first one on.
 */
module WindowCodes {
  import opened Bytes
  import opened AddrCache
  import opened InstCoder
  import opened Covers

  /** Start of the window in the new data, and the source window. */
  datatype Env = Env(targetPos: nat, srcPos: nat, srcLen: nat)

  function CopyAddr(c: Cover, e: Env): u64 {
    Wrap64(c.oldPos - e.srcPos)
  }

  /** The COPY for a cover when the encoder is at its new position. */
  function CopyFor(c: Cover, e: Env, cache: Cache): VcCode
    requires cache.Valid() && c.length < TWO_64
  {
    var (mode, sub) := Pick(cache, CopyAddr(c, e), Wrap64(e.srcLen + c.newPos - e.targetPos));
    CopyCode(c.length, mode, sub)
  }

  function AddFor(n: nat): seq<VcCode>
    requires n < TWO_64
  {
    if n == 0 then [] else [AddCode(n)]
  }

  /** The instructions for new positions `here` to `end`, for covers from `here` on. */
  function Codes(cs: seq<Cover>, here: nat, end: nat, e: Env, cache: Cache): seq<VcCode>
    requires here <= end < TWO_64 && cache.Valid()
  {
    if cs == [] || end <= cs[0].newPos then AddFor(end - here)
    else if cs[0].newPos < here then []
    else
      var c := cs[0];
      if c.NewEnd() > end then AddFor(c.newPos - here)
      else
        AddFor(c.newPos - here) + [CopyFor(c, e, cache)]
        + Codes(cs[1..], c.NewEnd(), end, e, cache.Update(CopyAddr(c, e)))
  }

  /** The bytes of `TNewDataDiffStream` for new positions `here` to `end`. */
  function GapBytes(cs: seq<Cover>, here: nat, end: nat, newData: seq<byte>): seq<byte>
    requires here <= end <= |newData|
  {
    if cs == [] then newData[here..end]
    else
      var c := cs[0];
      if c.newPos < here then []
      else if c.newPos >= end then newData[here..end]
      else if c.NewEnd() > end then newData[here..c.newPos]
      else newData[here..c.newPos] + GapBytes(cs[1..], c.NewEnd(), end, newData)
  }

  /** No cover reaches over the end of the window. */
  predicate Fits(cs: seq<Cover>, end: nat) {
    forall i :: 0 <= i < |cs| && cs[i].newPos < end ==> cs[i].NewEnd() <= end
  }

  /** All covers read inside the source window. */
  predicate InSource(cs: seq<Cover>, e: Env) {
    forall i :: 0 <= i < |cs| ==> e.srcPos <= cs[i].oldPos && cs[i].OldEnd() <= e.srcPos + e.srcLen
  }

  lemma ValidAppend(a: seq<VcCode>, b: seq<VcCode>)
    requires ValidCodes(a) && ValidCodes(b)
    ensures ValidCodes(a + b)
  {
  }

  lemma CopyIsValid(c: Cover, e: Env, cache: Cache)
    requires cache.Valid() && 0 < c.length < TWO_64
    ensures ValidCode(CopyFor(c, e, cache))
  {
    PickInverts(cache, CopyAddr(c, e), Wrap64(e.srcLen + c.newPos - e.targetPos));
  }

  lemma {:induction false} CodesAreValid(cs: seq<Cover>, here: nat, end: nat, e: Env, cache: Cache, last: nat)
    requires here <= end < TWO_64 && cache.Valid() && Ordered(cs, here, last)
    ensures ValidCodes(Codes(cs, here, end, e, cache))
  {
    if cs != [] && cs[0].NewEnd() <= end {
      var c := cs[0];
      var cache1 := cache.Update(CopyAddr(c, e));
      CopyIsValid(c, e, cache);
      CodesAreValid(cs[1..], c.NewEnd(), end, e, cache1, last);
      ValidAppend(AddFor(c.newPos - here), [CopyFor(c, e, cache)]);
      ValidAppend(AddFor(c.newPos - here) + [CopyFor(c, e, cache)], Codes(cs[1..], c.NewEnd(), end, e, cache1));
    }
  }

  function SumSizes(codes: seq<VcCode>): nat
    requires ValidCodes(codes)
  {
    if codes == [] then 0 else codes[0].size + SumSizes(codes[1..])
  }

  lemma {:induction false} SumAppend(a: seq<VcCode>, b: seq<VcCode>)
    requires ValidCodes(a) && ValidCodes(b)
    ensures SumSizes(a + b) == SumSizes(a) + SumSizes(b)
  {
    if a == [] {
      assert a + b == b;
    } else {
      assert (a + b)[1..] == a[1..] + b;
      SumAppend(a[1..], b);
    }
  }

  /** Adding an ADD for the gap and one COPY in front. */
  lemma SumOfStep(gap: nat, copy: VcCode, tail: seq<VcCode>)
    requires gap < TWO_64 && ValidCode(copy) && ValidCodes(tail)
    ensures ValidCodes(AddFor(gap) + [copy] + tail)
    ensures SumSizes(AddFor(gap) + [copy] + tail) == gap + copy.size + SumSizes(tail)
  {
    ValidAppend(AddFor(gap), [copy]);
    ValidAppend(AddFor(gap) + [copy], tail);
    SumAppend(AddFor(gap) + [copy], tail);
    SumAppend(AddFor(gap), [copy]);
    assert [copy][1..] == [];
    assert gap > 0 ==> AddFor(gap)[1..] == [];
  }

  /** The instruction sizes of a window add up to its length when no cover reaches over its end. */
  lemma {:induction false} CodesFillWindow(cs: seq<Cover>, here: nat, end: nat, e: Env, cache: Cache, last: nat)
    requires here <= end < TWO_64 && cache.Valid()
    requires Ordered(cs, here, last) && Fits(cs, end)
    ensures ValidCodes(Codes(cs, here, end, e, cache))
    ensures SumSizes(Codes(cs, here, end, e, cache)) == end - here
  {
    CodesAreValid(cs, here, end, e, cache, last);
    if cs != [] && cs[0].newPos < end {
      var c := cs[0];
      var cache1 := cache.Update(CopyAddr(c, e));
      CopyIsValid(c, e, cache);
      CodesFillWindow(cs[1..], c.NewEnd(), end, e, cache1, last);
      SumOfStep(c.newPos - here, CopyFor(c, e, cache), Codes(cs[1..], c.NewEnd(), end, e, cache1));
    } else if here < end {
      assert AddFor(end - here)[1..] == [];
    }
  }
}
