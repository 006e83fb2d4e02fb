/**
 What a written target window holds, told from the covers: its instructions are one COPY for each cover
 and one ADD for each gap, with the address forms that the COPYs before allow, and its data section
 holds exactly the new bytes under no cover.
 */
module WindowContents {
  import opened Bytes
  import opened AddrCache
  import opened AddrHistory
  import opened InstCoder
  import opened Covers
  import opened WindowCodes

  // --- the instructions ------------------------------------------------------------------------------

  /** Where a gap at `pos` ends. */
  function GapEnd(cs: seq<Cover>, end: nat): nat {
    if cs == [] || cs[0].newPos >= end then end else cs[0].newPos
  }

  /** `codes` writes the new positions `pos` to `end`: an ADD fills the gap up to the next cover or the end,
      a COPY is the next cover, with its distance from the source window's start as address, in a form
      chosen behind COPYs from `addrs`. */
  ghost predicate WritesCovers(codes: seq<VcCode>, cs: seq<Cover>, pos: nat, end: nat, e: Env, addrs: seq<u64>) {
    if codes == [] then pos == end && GapEnd(cs, end) == end
    else
      match codes[0]
      case NoCode => false
      case AddCode(size) =>
        size > 0 && pos + size == GapEnd(cs, end) && WritesCovers(codes[1..], cs, pos + size, end, e, addrs)
      case CopyCode(size, mode, sub) =>
        && cs != [] && pos == cs[0].newPos && size == cs[0].length && pos + size <= end
        && Chosen(addrs, Wrap64(cs[0].oldPos - e.srcPos), Wrap64(e.srcLen + pos - e.targetPos), mode, sub)
        && WritesCovers(codes[1..], cs[1..], pos + size, end, e, addrs + [Wrap64(cs[0].oldPos - e.srcPos)])
  }

  lemma {:induction false} AddFirst(n: nat, codes: seq<VcCode>, cs: seq<Cover>, pos: nat, end: nat, e: Env, addrs: seq<u64>)
    requires n < TWO_64 && pos + n == GapEnd(cs, end) && WritesCovers(codes, cs, pos + n, end, e, addrs)
    ensures WritesCovers(AddFor(n) + codes, cs, pos, end, e, addrs)
  {
    if n == 0 {
      assert AddFor(n) + codes == codes;
    } else {
      assert (AddFor(n) + codes)[1..] == codes;
    }
  }

  /** The codes of a window write its covers, whatever was copied before. */
  lemma {:induction false} CodesWriteCovers(cs: seq<Cover>, here: nat, end: nat, e: Env, addrs: seq<u64>, last: nat)
    requires here <= end < TWO_64 && Ordered(cs, here, last) && Fits(cs, end)
    ensures WritesCovers(Codes(cs, here, end, e, After(addrs)), cs, here, end, e, addrs)
  {
    hide After, Pick, Chosen;
    if cs == [] || end <= cs[0].newPos {
      AddFirst(end - here, [], cs, here, end, e, addrs);
      assert AddFor(end - here) + [] == AddFor(end - here);
    } else {
      var c, addr := cs[0], CopyAddr(cs[0], e);
      PickSeen(addrs, addr, Wrap64(e.srcLen + c.newPos - e.targetPos));
      AfterNext(addrs, addr);
      FitsRest(cs, end);
      CodesWriteCovers(cs[1..], c.NewEnd(), end, e, addrs + [addr], last);
      var copy := CopyFor(c, e, After(addrs));
      var tail := Codes(cs[1..], c.NewEnd(), end, e, After(addrs + [addr]));
      assert ([copy] + tail)[1..] == tail;
      assert WritesCovers([copy] + tail, cs, c.newPos, end, e, addrs);
      AddFirst(c.newPos - here, [copy] + tail, cs, here, end, e, addrs);
      Regroup(AddFor(c.newPos - here), [copy], tail);
    }
  }

  lemma FitsRest(cs: seq<Cover>, end: nat)
    requires cs != [] && Fits(cs, end)
    ensures Fits(cs[1..], end) && (cs[0].newPos < end ==> cs[0].NewEnd() <= end)
  {
  }

  /** A window begins with an empty cache. */
  lemma WindowStart()
    ensures After([]) == EmptyCache()
  {
  }

  // --- the data ------------------------------------------------------------------------------------------

  predicate Covered(cs: seq<Cover>, p: nat) {
    exists i :: 0 <= i < |cs| && cs[i].newPos <= p < cs[i].NewEnd()
  }

  /** The new bytes from `pos` to `end` that no cover covers, byte by byte. */
  function Uncovered(cs: seq<Cover>, pos: nat, end: nat, newData: seq<byte>): seq<byte>
    requires pos <= end <= |newData|
    decreases end - pos
  {
    if pos == end then []
    else (if Covered(cs, pos) then [] else [newData[pos]]) + Uncovered(cs, pos + 1, end, newData)
  }

  lemma {:induction false} UncoveredSplit(cs: seq<Cover>, a: nat, b: nat, end: nat, newData: seq<byte>)
    requires a <= b <= end <= |newData|
    ensures Uncovered(cs, a, end, newData) == Uncovered(cs, a, b, newData) + Uncovered(cs, b, end, newData)
    decreases b - a
  {
    hide Covered;
    if a < b {
      UncoveredSplit(cs, a + 1, b, end, newData);
    }
  }

  /** Where all bytes are covered, or none. */
  lemma {:induction false} UncoveredStretch(cs: seq<Cover>, a: nat, b: nat, all: bool, newData: seq<byte>)
    requires a <= b <= |newData| && forall p: nat :: a <= p < b ==> Covered(cs, p) == all
    ensures Uncovered(cs, a, b, newData) == if all then [] else newData[a..b]
    decreases b - a
  {
    hide Covered;
    if a < b {
      UncoveredStretch(cs, a + 1, b, all, newData);
      assert newData[a..b] == [newData[a]] + newData[a + 1..b];
    }
  }

  /** A cover in front has no effect. */
  lemma {:induction false} UncoveredBehind(cs: seq<Cover>, a: nat, b: nat, newData: seq<byte>)
    requires cs != [] && cs[0].NewEnd() <= a <= b <= |newData|
    ensures Uncovered(cs, a, b, newData) == Uncovered(cs[1..], a, b, newData)
    decreases b - a
  {
    if a < b {
      CoveredBehind(cs, a);
      hide Covered;
      UncoveredBehind(cs, a + 1, b, newData);
    }
  }

  lemma CoveredBehind(cs: seq<Cover>, p: nat)
    requires cs != [] && (p < cs[0].newPos || cs[0].NewEnd() <= p)
    ensures Covered(cs, p) <==> Covered(cs[1..], p)
  {
    if i :| 0 <= i < |cs| && cs[i].newPos <= p < cs[i].NewEnd() {
      assert cs[1..][i - 1] == cs[i];
    }
    if i :| 0 <= i < |cs[1..]| && cs[1..][i].newPos <= p < cs[1..][i].NewEnd() {
      assert cs[i + 1] == cs[1..][i];
    }
  }

  lemma {:induction false} NoneInFront(cs: seq<Cover>, a: nat, b: nat, last: nat)
    requires Ordered(cs, a, last) && (cs != [] ==> b <= cs[0].newPos)
    ensures forall p: nat :: a <= p < b ==> !Covered(cs, p)
  {
    if cs != [] {
      OrderedBounds(cs[1..], cs[0].NewEnd(), last);
      forall i | 0 <= i < |cs| ensures b <= cs[i].newPos {
        assert i > 0 ==> cs[i] == cs[1..][i - 1];
      }
    }
  }

  /** The data section of a window is the new bytes under no cover, for every ordered list of covers. */
  lemma {:induction false} GapIsUncovered(cs: seq<Cover>, here: nat, end: nat, newData: seq<byte>)
    requires here <= end <= |newData| && Ordered(cs, here, |newData|)
    ensures GapBytes(cs, here, end, newData) == Uncovered(cs, here, end, newData)
  {
    hide Covered, Uncovered;
    var stop := GapEnd(cs, end);
    NoneInFront(cs, here, stop, |newData|);
    UncoveredStretch(cs, here, stop, false, newData);
    if stop < end {
      var to := if cs[0].NewEnd() < end then cs[0].NewEnd() else end;
      FirstUncovered(cs, here, to, end, newData);
      if cs[0].NewEnd() <= end {
        UncoveredBehind(cs, to, end, newData);
        OrderedBounds(cs[1..], cs[0].NewEnd(), |newData|);
        GapIsUncovered(cs[1..], to, end, newData);
      } else {
        UncoveredEnd(cs, end, newData);
      }
    } else {
      UncoveredEnd(cs, end, newData);
    }
  }

  /** Up to the end of the first cover only the gap in front of it is uncovered. */
  lemma FirstUncovered(cs: seq<Cover>, here: nat, to: nat, end: nat, newData: seq<byte>)
    requires cs != [] && here <= cs[0].newPos <= to <= end <= |newData| && to <= cs[0].NewEnd()
    requires Uncovered(cs, here, cs[0].newPos, newData) == newData[here..cs[0].newPos]
    ensures Uncovered(cs, here, end, newData) == newData[here..cs[0].newPos] + Uncovered(cs, to, end, newData)
  {
    hide Covered, Uncovered;
    var stop := cs[0].newPos;
    UnderFirst(cs);
    UncoveredStretch(cs, stop, to, true, newData);
    UncoveredSplit(cs, here, stop, end, newData);
    UncoveredSplit(cs, stop, to, end, newData);
  }

  lemma UnderFirst(cs: seq<Cover>)
    requires cs != []
    ensures forall p: nat :: cs[0].newPos <= p < cs[0].NewEnd() ==> Covered(cs, p)
  {
  }

  lemma {:induction false} UncoveredEnd(cs: seq<Cover>, end: nat, newData: seq<byte>)
    requires end <= |newData|
    ensures Uncovered(cs, end, end, newData) == []
  {
  }
}
