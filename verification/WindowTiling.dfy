/**
 All target windows of a file together: they tile the new data, and every cover lies in exactly one
 of them.
 */
module WindowTiling {
  import opened Bytes
  import opened AddrCache
  import opened InstCoder
  import opened Covers
  import opened WindowCodes
  import opened TargetWindow
  import opened VcdiffFormat
  import opened VcdiffRoundTrip
  import opened VcdiffFile

  /** A target window and the covers it takes. */
  datatype Target = Target(pos: nat, end: nat, covers: seq<Cover>)

  /** The windows that the loop of `serialize_vcdiff` cuts from `pos` on. */
  function Targets(cs: seq<Cover>, pos: nat, end: nat, max: nat): seq<Target>
    requires 0 < max && Ordered(cs, pos, end) && ShortCovers(cs, max)
    decreases end - pos
  {
    OrderedBounds(cs, pos, end);
    if pos == end then []
    else
      WindowProgress(cs, pos, end, max);
      WindowEndIsGood(cs, pos, end, pos + max);
      var k := Taken(cs, pos, end, pos + max);
      var wEnd := WindowEnd(cs, pos, end, pos + max);
      [Target(pos, wEnd, cs[..k])] + Targets(cs[k..], wEnd, end, max)
  }

  /** The covers of a window lie wholly in it. */
  predicate HoldsItsCovers(t: Target) {
    forall i :: 0 <= i < |t.covers| ==> t.pos <= t.covers[i].newPos && t.covers[i].NewEnd() <= t.end
  }

  /** The first window and the rest. */
  lemma {:induction false} TargetsStep(cs: seq<Cover>, pos: nat, end: nat, max: nat)
    returns (t: Target, rest: seq<Cover>)
    requires 0 < max && Ordered(cs, pos, end) && ShortCovers(cs, max) && pos < end
    ensures t.end == WindowEnd(cs, pos, end, pos + max) && rest == cs[Taken(cs, pos, end, pos + max)..]
    ensures t.pos == pos < t.end <= pos + max && t.end <= end && HoldsItsCovers(t) && t.covers + rest == cs
    ensures Ordered(rest, t.end, end) && ShortCovers(rest, max)
    ensures Targets(cs, pos, end, max) == [t] + Targets(rest, t.end, end, max)
  {
    hide WindowEnd, Taken, Ordered, Fits;
    WindowProgress(cs, pos, end, max);
    WindowEndIsGood(cs, pos, end, pos + max);
    OrderedBounds(cs, pos, end);
    var k := Taken(cs, pos, end, pos + max);
    t, rest := Target(pos, WindowEnd(cs, pos, end, pos + max), cs[..k]), cs[k..];
  }

  /** Windows of length 1 to `max` follow each other from `pos` to `end`. */
  predicate Tiling(ts: seq<Target>, pos: nat, end: nat, max: nat) {
    if ts == [] then pos == end
    else
      && ts[0].pos == pos && pos < ts[0].end <= pos + max && HoldsItsCovers(ts[0])
      && Tiling(ts[1..], ts[0].end, end, max)
  }

  function CoversOf(ts: seq<Target>): seq<Cover> {
    if ts == [] then [] else ts[0].covers + CoversOf(ts[1..])
  }

  function LengthOf(ts: seq<Target>): int {
    if ts == [] then 0 else ts[0].end - ts[0].pos + LengthOf(ts[1..])
  }

  /** The windows tile the new data; joined, their covers are all covers, in order, so that none is
      left when the loop ends; and each cover lies wholly in the window that takes it. */
  lemma {:induction false} TargetsTile(cs: seq<Cover>, pos: nat, end: nat, max: nat)
    requires 0 < max && Ordered(cs, pos, end) && ShortCovers(cs, max)
    ensures var ts := Targets(cs, pos, end, max);
      Tiling(ts, pos, end, max) && CoversOf(ts) == cs && LengthOf(ts) == end - pos
    decreases end - pos
  {
    if pos == end {
      NothingBehindEnd(cs, end);
    } else {
      OrderedBounds(cs, pos, end);
      hide *;
      var t, rest := TargetsStep(cs, pos, end, max);
      TargetsTile(rest, t.end, end, max);
      FirstTarget(t, Targets(rest, t.end, end, max), end, max);
    }
  }

  lemma {:induction false} FirstTarget(t: Target, rest: seq<Target>, end: nat, max: nat)
    requires t.pos < t.end <= t.pos + max && HoldsItsCovers(t) && Tiling(rest, t.end, end, max)
    ensures var ts := [t] + rest;
      && Tiling(ts, t.pos, end, max)
      && CoversOf(ts) == t.covers + CoversOf(rest) && LengthOf(ts) == t.end - t.pos + LengthOf(rest)
  {
    assert ([t] + rest)[1..] == rest;
  }

  lemma NothingBehindEnd(cs: seq<Cover>, end: nat)
    requires Ordered(cs, end, end)
    ensures cs == []
  {
    OrderedBounds(cs, end, end);
  }

  lemma {:induction false} TilingBounds(ts: seq<Target>, pos: nat, end: nat, max: nat)
    requires Tiling(ts, pos, end, max)
    ensures pos <= end
    ensures forall i :: 0 <= i < |ts| ==> pos <= ts[i].pos < ts[i].end <= end && HoldsItsCovers(ts[i])
  {
    hide HoldsItsCovers;
    if ts != [] {
      TilingBounds(ts[1..], ts[0].end, end, max);
      forall i | 0 <= i < |ts| ensures pos <= ts[i].pos < ts[i].end <= end && HoldsItsCovers(ts[i]) {
        assert i > 0 ==> ts[i] == ts[1..][i - 1];
      }
    }
  }

  /** No cover of one window touches another window. */
  lemma {:induction false} OneWindow(ts: seq<Target>, pos: nat, end: nat, max: nat, i: nat, j: nat, c: Cover)
    requires Tiling(ts, pos, end, max) && i < |ts| && j < |ts| && i != j && c in ts[i].covers
    ensures ts[i].pos <= c.newPos && c.NewEnd() <= ts[i].end
    ensures if i < j then c.NewEnd() <= ts[j].pos else ts[j].end <= c.newPos
  {
    TilingBounds(ts, pos, end, max);
    TilingBounds(ts[1..], ts[0].end, end, max);
    if i > 0 && j > 0 {
      OneWindow(ts[1..], ts[0].end, end, max, i - 1, j - 1, c);
    } else {
      assert j > 0 ==> ts[j] == ts[1..][j - 1];
      assert i > 0 ==> ts[i] == ts[1..][i - 1];
    }
  }

  // --- the windows in the file ---------------------------------------------------------------------

  /** Source and target lengths of the windows. */
  function HeadsOf(ts: seq<Target>, srcLen: nat): seq<(nat, int)> {
    if ts == [] then [] else [(srcLen, ts[0].end - ts[0].pos)] + HeadsOf(ts[1..], srcLen)
  }

  /** A window head in front of anything is read as it was written. */
  lemma {:induction false} HeadOfWindow(cs: seq<Cover>, end: nat, e: Env, oldLen: nat, newData: seq<byte>, rest: seq<byte>)
    requires e.targetPos < end <= e.targetPos + MAX_WINDOW && end <= |newData| < TWO_64
    requires Ordered(cs, e.targetPos, |newData|) && Fits(cs, end)
    requires e.srcPos + e.srcLen <= oldLen < TWO_64 && (e.srcLen == 0 ==> e.srcPos == 0)
    ensures Heads(WindowBytes(cs, end, e, newData) + rest, false)
         == [(e.srcLen, end - e.targetPos)] + Heads(rest, false)
  {
    hide Codes, GapBytes, InstOf, AddrOf, ParseIndicator, ParseDelta, SrcHeader, Delta, Ordered, Fits;
    var codes := Codes(cs, e.targetPos, end, e, EmptyCache());
    CodesAreValid(cs, e.targetPos, end, e, EmptyCache(), |newData|);
    var data, inst, addr := GapBytes(cs, e.targetPos, end, newData), InstOf(codes), AddrOf(codes);
    var head, delta := SrcHeader(e.srcPos, e.srcLen), Delta(end - e.targetPos, data, inst, addr);
    SectionBounds(cs, end, e, newData);
    ParseSrcHeader(e.srcPos, e.srcLen, oldLen, 0, delta + rest);
    ParseDeltaBytes(end - e.targetPos, data, inst, addr, rest);
    Regroup(head, delta, rest);
  }

  /** The window heads of a written file are those of the tiling. */
  lemma {:induction false} HeadsAreTiling(cs: seq<Cover>, pos: nat, srcPos: nat, srcLen: nat, max: nat,
                                          oldData: seq<byte>, newData: seq<byte>)
    requires Input(cs, pos, srcPos, srcLen, max, oldData, newData) && pos <= |newData|
    ensures Heads(AllWindows(cs, pos, srcPos, srcLen, max, newData), false)
         == HeadsOf(Targets(cs, pos, |newData|, max), srcLen)
    decreases |newData| - pos
  {
    hide *;
    if pos == |newData| {
      NoTarget(cs, pos, srcPos, srcLen, max, oldData, newData);
    } else {
      var t, rest := WindowAndTarget(cs, pos, srcPos, srcLen, max, oldData, newData);
      HeadsAreTiling(rest, t.end, srcPos, srcLen, max, oldData, newData);
      HeadOfWindow(cs, t.end, Env(pos, srcPos, srcLen), |oldData|, newData,
                   AllWindows(rest, t.end, srcPos, srcLen, max, newData));
      FirstHead(t, Targets(rest, t.end, |newData|, max), srcLen);
    }
  }

  /** The first window of a file and the first target window. */
  lemma {:induction false} WindowAndTarget(cs: seq<Cover>, pos: nat, srcPos: nat, srcLen: nat, max: nat,
                                           oldData: seq<byte>, newData: seq<byte>)
    returns (t: Target, rest: seq<Cover>)
    requires Input(cs, pos, srcPos, srcLen, max, oldData, newData) && pos < |newData|
    ensures |newData| < TWO_64 && 0 < max <= MAX_WINDOW && srcPos + srcLen <= |oldData| < TWO_64
    ensures (srcLen == 0 ==> srcPos == 0) && Ordered(cs, pos, |newData|) && ShortCovers(cs, max)
    ensures t.pos == pos < t.end <= pos + max && t.end <= |newData| && Fits(cs, t.end) && t.covers + rest == cs
    ensures Input(rest, t.end, srcPos, srcLen, max, oldData, newData)
    ensures Ordered(rest, t.end, |newData|) && ShortCovers(rest, max)
    ensures Targets(cs, pos, |newData|, max) == [t] + Targets(rest, t.end, |newData|, max)
    ensures AllWindows(cs, pos, srcPos, srcLen, max, newData)
         == WindowBytes(cs, t.end, Env(pos, srcPos, srcLen), newData)
            + AllWindows(rest, t.end, srcPos, srcLen, max, newData)
  {
    hide Targets, WindowBytes, AllWindows, WindowEnd, Taken, Ordered, Fits, ShortCovers, HoldsItsCovers;
    t, rest := TargetsStep(cs, pos, |newData|, max);
    WindowsStep(cs, pos, srcPos, srcLen, max, oldData, newData, t.end, rest);
  }

  lemma {:induction false} FirstHead(t: Target, rest: seq<Target>, srcLen: nat)
    ensures HeadsOf([t] + rest, srcLen) == [(srcLen, t.end - t.pos)] + HeadsOf(rest, srcLen)
  {
    assert ([t] + rest)[1..] == rest;
  }

  lemma {:induction false} NoTarget(cs: seq<Cover>, pos: nat, srcPos: nat, srcLen: nat, max: nat,
                                    oldData: seq<byte>, newData: seq<byte>)
    requires Input(cs, pos, srcPos, srcLen, max, oldData, newData) && pos == |newData|
    ensures 0 < max && Ordered(cs, pos, |newData|) && ShortCovers(cs, max)
    ensures AllWindows(cs, pos, srcPos, srcLen, max, newData) == [] && Heads([], false) == []
    ensures Targets(cs, pos, |newData|, max) == [] && HeadsOf([], srcLen) == []
  {
  }
}
