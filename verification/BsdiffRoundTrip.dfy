/**
 bsdiff: the control triples, the sub data and the copy data of a list of covers, in three streams
 or interlaced in one, the patching loop (`bspatchByClip`), and the proof that patching gives the
 new data.
 */
module BsdiffRoundTrip {
  import opened Bytes
  import opened BsdiffCodes
  import opened Covers

  // --- covers ------------------------------------------------------------------------------------

  /** Sorted and not overlapping, from `pos` to `end`; lengths may be 0. */
  predicate Sorted(cs: seq<Cover>, pos: nat, end: nat) {
    if cs == [] then pos <= end
    else pos <= cs[0].newPos && Sorted(cs[1..], cs[0].NewEnd(), end)
  }

  predicate InOld(cs: seq<Cover>, oldLen: nat) {
    forall i :: 0 <= i < |cs| ==> cs[i].OldEnd() <= oldLen
  }

  lemma {:induction false} SortedBounds(cs: seq<Cover>, pos: nat, end: nat)
    requires Sorted(cs, pos, end)
    ensures pos <= end && forall i :: 0 <= i < |cs| ==> pos <= cs[i].newPos && cs[i].NewEnd() <= end
  {
    if cs != [] {
      SortedBounds(cs[1..], cs[0].NewEnd(), end);
      forall i | 0 <= i < |cs| ensures pos <= cs[i].newPos && cs[i].NewEnd() <= end {
        assert i > 0 ==> cs[i] == cs[1..][i - 1];
      }
    }
  }

  /** The list behind `_to_bsdiff_covers`: it starts at the begin of both files (an empty cover is
      put in front when the first one does not), and ends with an empty cover at the end. */
  function BsdiffCovers(cs: seq<Cover>, newLen: nat): seq<Cover> {
    var front := if cs == [] || cs[0].newPos != 0 || cs[0].oldPos != 0 then [Cover(0, 0, 0)] + cs else cs;
    front + [Cover(front[|front| - 1].OldEnd(), newLen, 0)]
  }

  /** What the writers and the patcher rely on. */
  predicate Chain(cs: seq<Cover>, newLen: nat, oldLen: nat) {
    && cs != []
    && Sorted(cs, cs[0].newPos, newLen) && InOld(cs, oldLen)
    && cs[|cs| - 1].newPos == newLen && cs[|cs| - 1].length == 0
  }

  lemma {:induction false} SortedAppend(cs: seq<Cover>, pos: nat, end: nat, last: Cover)
    requires Sorted(cs, pos, end) && last.newPos == end && last.length == 0
    ensures Sorted(cs + [last], pos, end)
  {
    if cs == [] {
      assert cs + [last] == [last] && [last][1..] == [];
    } else {
      assert (cs + [last])[1..] == cs[1..] + [last];
      SortedAppend(cs[1..], cs[0].NewEnd(), end, last);
    }
  }

  lemma {:induction false} BsdiffCoversChain(cs: seq<Cover>, newLen: nat, oldLen: nat)
    requires Sorted(cs, 0, newLen) && InOld(cs, oldLen)
    ensures var bs := BsdiffCovers(cs, newLen);
      && Chain(bs, newLen, oldLen) && |bs| >= 2 && bs[0].newPos == 0 && bs[0].oldPos == 0
      && (forall i :: 0 <= i < |bs| && bs[i].length > 0 ==> bs[i] in cs)
  {
    var front := if cs == [] || cs[0].newPos != 0 || cs[0].oldPos != 0 then [Cover(0, 0, 0)] + cs else cs;
    if front != cs {
      assert front[1..] == cs;
    }
    SortedAppend(front, 0, newLen, Cover(front[|front| - 1].OldEnd(), newLen, 0));
  }

  // --- the data of a list of covers ------------------------------------------------------------------

  const CTRL_BYTES: nat := 24

  /** Length of a cover, new bytes behind it, and how far the next one is in the old data. */
  function Triple(c: Cover, next: Cover): (s: seq<byte>)
    requires c.length < TWO_64
    ensures |s| == CTRL_BYTES
  {
    Word(c.length) + Word(Wrap64(next.newPos - c.NewEnd()))
    + Word(SignMagnitude(Wrap64(next.oldPos - c.OldEnd())))
  }

  predicate Short(cs: seq<Cover>) {
    forall i :: 0 <= i < |cs| ==> cs[i].length < TWO_64
  }

  function Ctrl(cs: seq<Cover>): seq<byte>
    requires Short(cs)
  {
    if |cs| < 2 then [] else Triple(cs[0], cs[1]) + Ctrl(cs[1..])
  }

  /** The new bytes under a cover minus the old bytes, modulo 256; or only zeros, for covers that
      match exactly. */
  function SubOf(c: Cover, oldData: seq<byte>, newData: seq<byte>, isZero: bool): (s: seq<byte>)
    requires c.OldEnd() <= |oldData| && c.NewEnd() <= |newData|
    ensures |s| == c.length
  {
    if isZero then seq(c.length, _ => 0)
    else seq(c.length, i requires 0 <= i < c.length =>
               ((newData[c.newPos + i] as int - oldData[c.oldPos + i] as int) % 256) as byte)
  }

  function GapOf(c: Cover, next: Cover, newData: seq<byte>): seq<byte>
    requires c.NewEnd() <= next.newPos <= |newData|
  {
    newData[c.NewEnd()..next.newPos]
  }

  function Sub(cs: seq<Cover>, oldData: seq<byte>, newData: seq<byte>, isZero: bool): seq<byte>
    requires cs != [] ==> Chain(cs, |newData|, |oldData|)
  {
    if |cs| < 2 then []
    else
      ChainNext(cs, |newData|, |oldData|);
      SubOf(cs[0], oldData, newData, isZero) + Sub(cs[1..], oldData, newData, isZero)
  }

  function Gaps(cs: seq<Cover>, oldLen: nat, newData: seq<byte>): seq<byte>
    requires cs != [] ==> Chain(cs, |newData|, oldLen)
  {
    if |cs| < 2 then []
    else
      ChainNext(cs, |newData|, oldLen);
      GapOf(cs[0], cs[1], newData) + Gaps(cs[1..], oldLen, newData)
  }

  /** Triple, sub data and copy data of one cover after the other. */
  function Interlaced(cs: seq<Cover>, oldData: seq<byte>, newData: seq<byte>, isZero: bool): seq<byte>
    requires Short(cs) && (cs != [] ==> Chain(cs, |newData|, |oldData|))
  {
    if |cs| < 2 then []
    else
      ChainNext(cs, |newData|, |oldData|);
      Triple(cs[0], cs[1]) + SubOf(cs[0], oldData, newData, isZero) + GapOf(cs[0], cs[1], newData)
      + Interlaced(cs[1..], oldData, newData, isZero)
  }

  lemma {:induction false} ChainNext(cs: seq<Cover>, newLen: nat, oldLen: nat)
    requires Chain(cs, newLen, oldLen) && |cs| >= 2
    ensures Chain(cs[1..], newLen, oldLen)
    ensures cs[0].NewEnd() <= cs[1].newPos <= newLen && cs[0].OldEnd() <= oldLen && cs[1].oldPos <= oldLen
  {
    var t := cs[1..];
    assert t[0] == cs[1] && t[|t| - 1] == cs[|cs| - 1];
    assert forall i :: 0 <= i < |t| ==> t[i] == cs[i + 1];
    SortedBounds(t, cs[0].NewEnd(), newLen);
    assert Sorted(t, t[0].newPos, newLen);
  }

  // --- patching ------------------------------------------------------------------------------------------

  /** The three streams, or the one for all. */
  datatype Feed = Three(ctrl: seq<byte>, sub: seq<byte>, copy: seq<byte>) | One(all: seq<byte>)

  function Size(f: Feed): nat {
    match f
    case Three(c, s, d) => |c| + |s| + |d|
    case One(a) => |a|
  }

  function Cut(s: seq<byte>, n: nat): (r: Option<(seq<byte>, seq<byte>)>)
    ensures r.Some? ==> |r.value.0| == n && |r.value.1| == |s| - n && s == r.value.0 + r.value.1
  {
    if |s| < n then None else Some((s[..n], s[n..]))
  }

  function TakeCtrl(f: Feed, n: nat): (r: Option<(seq<byte>, Feed)>)
    ensures r.Some? ==> |r.value.0| == n && Size(r.value.1) == Size(f) - n
  {
    match f
    case Three(c, s, d) =>
      var (x, c1) :- Cut(c, n);
      Some((x, Three(c1, s, d)))
    case One(a) =>
      var (x, a1) :- Cut(a, n);
      Some((x, One(a1)))
  }

  function TakeSub(f: Feed, n: nat): (r: Option<(seq<byte>, Feed)>)
    ensures r.Some? ==> |r.value.0| == n && Size(r.value.1) == Size(f) - n
  {
    match f
    case Three(c, s, d) =>
      var (x, s1) :- Cut(s, n);
      Some((x, Three(c, s1, d)))
    case One(a) =>
      var (x, a1) :- Cut(a, n);
      Some((x, One(a1)))
  }

  function TakeCopy(f: Feed, n: nat): (r: Option<(seq<byte>, Feed)>)
    ensures r.Some? ==> |r.value.0| == n && Size(r.value.1) == Size(f) - n
  {
    match f
    case Three(c, s, d) =>
      var (x, d1) :- Cut(d, n);
      Some((x, Three(c, s, d1)))
    case One(a) =>
      var (x, a1) :- Cut(a, n);
      Some((x, One(a1)))
  }

  /** Byte by byte sum modulo 256. */
  function AddBytes(a: seq<byte>, b: seq<byte>): (s: seq<byte>)
    requires |a| == |b|
    ensures |s| == |a|
  {
    seq(|a|, i requires 0 <= i < |a| => ((a[i] as int + b[i] as int) % 256) as byte)
  }

  /** `newPosBack`, `oldPosBack`, the output and what is left of the streams. */
  datatype State = State(newPos: nat, oldPos: u64, out: seq<byte>, feed: Feed)

  /** The cover part of a round: sub data added to old data. */
  function CoverStep(oldData: seq<byte>, newLen: nat, coverLen: u64, st: State): (r: Option<State>)
    ensures r.Some? ==>
              && st.oldPos + coverLen <= |oldData| && st.newPos + coverLen <= newLen
              && r.value.newPos == st.newPos + coverLen && r.value.oldPos == st.oldPos
              && Size(r.value.feed) <= Size(st.feed)
  {
    if st.newPos > newLen || coverLen > newLen - st.newPos || st.oldPos > |oldData| || coverLen > |oldData| - st.oldPos
    then None
    else
      var (sub, feed) :- TakeSub(st.feed, coverLen);
      Some(State(st.newPos + coverLen, st.oldPos,
                 st.out + AddBytes(oldData[st.oldPos..st.oldPos + coverLen], sub), feed))
  }

  /** The copy part of a round. */
  function CopyStep(newLen: nat, skipNewLen: u64, st: State): (r: Option<State>)
    ensures r.Some? ==> r.value.newPos == st.newPos + skipNewLen && Size(r.value.feed) <= Size(st.feed)
    ensures r.Some? && st.newPos <= newLen ==> r.value.newPos <= newLen
  {
    if skipNewLen == 0 then Some(st)
    else if st.newPos > newLen || skipNewLen > newLen - st.newPos then None
    else
      var (d, feed) :- TakeCopy(st.feed, skipNewLen);
      Some(State(st.newPos + skipNewLen, st.oldPos, st.out + d, feed))
  }

  /** One round of the patching loop. */
  function Round(oldData: seq<byte>, newLen: nat, st: State): (r: Option<State>)
    ensures r.Some? ==> Size(r.value.feed) < Size(st.feed) && r.value.newPos <= newLen
  {
    var (t, feed) :- TakeCtrl(st.feed, CTRL_BYTES);
    var coverLen := ReadUInt64(t[..8]);
    var st1 :- CoverStep(oldData, newLen, coverLen, st.(feed := feed));
    CopyStep(newLen, ReadUInt64(t[8..16]), st1.(oldPos := OldPosAfter(st.oldPos, coverLen, ReadUInt64(t[16..]))))
  }

  /** The loop, and its last check. */
  function Patch(oldData: seq<byte>, newLen: nat, st: State): Option<seq<byte>>
    decreases Size(st.feed)
  {
    if st.newPos >= newLen then (if st.newPos == newLen then Some(st.out) else None)
    else
      var st1 :- Round(oldData, newLen, st);
      Patch(oldData, newLen, st1)
  }

  function Begin(feed: Feed): State {
    State(0, 0, [], feed)
  }

  // --- the round trip ----------------------------------------------------------------------------------

  /** What a list of covers requires of the data: all covers match when the sub data is left zero. */
  ghost predicate Fitting(cs: seq<Cover>, oldData: seq<byte>, newData: seq<byte>, isZero: bool) {
    && cs != [] && Chain(cs, |newData|, |oldData|)
    && |newData| < TWO_63 && |oldData| < TWO_63
    && (isZero ==> AllMatching(cs, oldData, newData))
  }

  lemma {:induction false} FittingShort(cs: seq<Cover>, oldData: seq<byte>, newData: seq<byte>, isZero: bool)
    requires Fitting(cs, oldData, newData, isZero)
    ensures Short(cs)
  {
    SortedBounds(cs, cs[0].newPos, |newData|);
  }

  lemma {:induction false} FittingNext(cs: seq<Cover>, oldData: seq<byte>, newData: seq<byte>, isZero: bool)
    requires Fitting(cs, oldData, newData, isZero) && |cs| >= 2
    ensures Fitting(cs[1..], oldData, newData, isZero)
    ensures cs[0].NewEnd() <= cs[1].newPos <= |newData| && cs[0].OldEnd() <= |oldData| && cs[1].oldPos <= |oldData|
  {
    ChainNext(cs, |newData|, |oldData|);
    assert forall i :: 0 <= i < |cs[1..]| ==> cs[1..][i] == cs[i + 1];
  }

  /** Adding the sub data to the old bytes gives the new bytes. */
  lemma AddSub(c: Cover, oldData: seq<byte>, newData: seq<byte>, isZero: bool)
    requires c.OldEnd() <= |oldData| && c.NewEnd() <= |newData|
    requires isZero ==> Matching(c, oldData, newData)
    ensures AddBytes(oldData[c.oldPos..c.OldEnd()], SubOf(c, oldData, newData, isZero)) == newData[c.newPos..c.NewEnd()]
  {
    var r := AddBytes(oldData[c.oldPos..c.OldEnd()], SubOf(c, oldData, newData, isZero));
    forall i | 0 <= i < c.length ensures r[i] == newData[c.newPos..c.NewEnd()][i] {
      if isZero {
        assert newData[c.newPos..c.NewEnd()][i] == oldData[c.oldPos..c.OldEnd()][i];
      } else {
        SubAdd(newData[c.newPos + i], oldData[c.oldPos + i]);
      }
    }
  }

  lemma SubAdd(x: byte, y: byte)
    ensures (y as int + (x as int - y as int) % 256) % 256 == x as int
  {
  }

  lemma ThreeWords(a: seq<byte>, b: seq<byte>, c: seq<byte>)
    requires |a| == 8 && |b| == 8 && |c| == 8
    ensures (a + b + c)[..8] == a && (a + b + c)[8..16] == b && (a + b + c)[16..] == c
  {
  }

  lemma WrapSmall(x: u64)
    ensures Wrap64(x) == x
  {
  }

  lemma TripleWords(c: Cover, next: Cover)
    requires c.NewEnd() <= next.newPos < TWO_63 && c.OldEnd() < TWO_63 && next.oldPos < TWO_63
    ensures var t := Triple(c, next);
      && ReadUInt64(t[..8]) == c.length && ReadUInt64(t[8..16]) == next.newPos - c.NewEnd()
      && OldPosAfter(c.oldPos, c.length, ReadUInt64(t[16..])) == next.oldPos
  {
    hide Word, ReadUInt64, OldPosAfter, SignMagnitude, Wrap64;
    var skip := SignMagnitude(Wrap64(next.oldPos - c.OldEnd()));
    WrapSmall(next.newPos - c.NewEnd());
    ThreeWords(Word(c.length), Word(next.newPos - c.NewEnd()), Word(skip));
    ReadWord(c.length);
    ReadWord(next.newPos - c.NewEnd());
    ReadWord(skip);
    NextOldPos(c.oldPos, c.length, next.oldPos);
  }

  /** A round on a triple, its sub data and its copy data. */
  lemma {:induction false} RoundOfCover(c: Cover, next: Cover, oldData: seq<byte>, newData: seq<byte>, isZero: bool,
                                        feed: Feed, feed1: Feed, feed2: Feed, feed3: Feed)
    requires |newData| < TWO_63 && |oldData| < TWO_63
    requires c.NewEnd() <= next.newPos <= |newData| && c.OldEnd() <= |oldData| && next.oldPos <= |oldData|
    requires isZero ==> Matching(c, oldData, newData)
    requires TakeCtrl(feed, CTRL_BYTES) == Some((Triple(c, next), feed1))
    requires TakeSub(feed1, c.length) == Some((SubOf(c, oldData, newData, isZero), feed2))
    requires if c.NewEnd() == next.newPos then feed3 == feed2
             else TakeCopy(feed2, next.newPos - c.NewEnd()) == Some((GapOf(c, next, newData), feed3))
    ensures Round(oldData, |newData|, State(c.newPos, c.oldPos, newData[..c.newPos], feed))
         == Some(State(next.newPos, next.oldPos, newData[..next.newPos], feed3))
  {
    hide TakeCtrl, TakeSub, TakeCopy, ReadUInt64, OldPosAfter, SubOf, AddBytes, Triple;
    TripleWords(c, next);
    AddSub(c, oldData, newData, isZero);
    assert newData[..c.newPos] + newData[c.newPos..c.NewEnd()] == newData[..c.NewEnd()];
    assert newData[..c.NewEnd()] + newData[c.NewEnd()..next.newPos] == newData[..next.newPos];
  }

  lemma {:induction false} PatchStep(oldData: seq<byte>, newLen: nat, st: State, st1: State)
    requires st.newPos < newLen && Round(oldData, newLen, st) == Some(st1)
    ensures Patch(oldData, newLen, st) == Patch(oldData, newLen, st1)
  {
  }

  /** When the new position is at the end the rest of the covers is empty and has no effect. */
  lemma {:induction false} PatchAtEnd(oldData: seq<byte>, newData: seq<byte>, st: State)
    requires st.newPos == |newData| && st.out == newData[..st.newPos]
    ensures Patch(oldData, |newData|, st) == Some(newData)
  {
    assert newData[..|newData|] == newData;
  }

  lemma {:induction false} FittingFirst(cs: seq<Cover>, oldData: seq<byte>, newData: seq<byte>, isZero: bool)
    requires Fitting(cs, oldData, newData, isZero)
    ensures cs[0].newPos <= |newData| && cs[0].oldPos < TWO_64
  {
    SortedBounds(cs, cs[0].newPos, |newData|);
  }

  /** The state in front of a cover. */
  ghost function At(cs: seq<Cover>, oldData: seq<byte>, newData: seq<byte>, isZero: bool, feed: Feed): State
    requires Fitting(cs, oldData, newData, isZero)
  {
    FittingFirst(cs, oldData, newData, isZero);
    State(cs[0].newPos, cs[0].oldPos, newData[..cs[0].newPos], feed)
  }

  lemma CutFront(a: seq<byte>, b: seq<byte>)
    ensures Cut(a + b, |a|) == Some((a, b))
  {
  }

  /** Three streams: patching from a cover on gives the new data. */
  lemma {:induction false} PatchThree(cs: seq<Cover>, oldData: seq<byte>, newData: seq<byte>, isZero: bool)
    requires Fitting(cs, oldData, newData, isZero) && Short(cs)
    ensures Patch(oldData, |newData|,
                  At(cs, oldData, newData, isZero,
                     Three(Ctrl(cs), Sub(cs, oldData, newData, isZero), Gaps(cs, |oldData|, newData))))
         == Some(newData)
    decreases |cs|
  {
    hide Round, Patch, Triple, SubOf, Sorted, InOld;
    var feed := Three(Ctrl(cs), Sub(cs, oldData, newData, isZero), Gaps(cs, |oldData|, newData));
    var st := At(cs, oldData, newData, isZero, feed);
    FittingFirst(cs, oldData, newData, isZero);
    if cs[0].newPos == |newData| {
      PatchAtEnd(oldData, newData, st);
    } else {
      FittingNext(cs, oldData, newData, isZero);
      var c, next, rest := cs[0], cs[1], cs[1..];
      var ctrl1, sub1, gaps1 := Ctrl(rest), Sub(rest, oldData, newData, isZero), Gaps(rest, |oldData|, newData);
      CutFront(Triple(c, next), ctrl1);
      CutFront(SubOf(c, oldData, newData, isZero), sub1);
      CutFront(GapOf(c, next, newData), gaps1);
      RoundOfCover(c, next, oldData, newData, isZero, feed,
                   Three(ctrl1, feed.sub, feed.copy), Three(ctrl1, sub1, feed.copy), Three(ctrl1, sub1, gaps1));
      PatchStep(oldData, |newData|, st,
                State(next.newPos, next.oldPos, newData[..next.newPos], Three(ctrl1, sub1, gaps1)));
      PatchThree(rest, oldData, newData, isZero);
    }
  }

  lemma FourParts(a: seq<byte>, b: seq<byte>, c: seq<byte>, d: seq<byte>)
    ensures a + b + c + d == a + (b + (c + d))
  {
  }

  /** One interlaced stream: the same. */
  lemma {:induction false} PatchOne(cs: seq<Cover>, oldData: seq<byte>, newData: seq<byte>, isZero: bool)
    requires Fitting(cs, oldData, newData, isZero) && Short(cs)
    ensures Patch(oldData, |newData|,
                  At(cs, oldData, newData, isZero, One(Interlaced(cs, oldData, newData, isZero))))
         == Some(newData)
    decreases |cs|
  {
    hide Round, Patch, Triple, SubOf, Sorted, InOld;
    var feed := One(Interlaced(cs, oldData, newData, isZero));
    var st := At(cs, oldData, newData, isZero, feed);
    FittingFirst(cs, oldData, newData, isZero);
    if cs[0].newPos == |newData| {
      PatchAtEnd(oldData, newData, st);
    } else {
      FittingNext(cs, oldData, newData, isZero);
      var c, next, rest := cs[0], cs[1], cs[1..];
      var sub, gap, all1 := SubOf(c, oldData, newData, isZero), GapOf(c, next, newData),
          Interlaced(rest, oldData, newData, isZero);
      FourParts(Triple(c, next), sub, gap, all1);
      CutFront(Triple(c, next), sub + (gap + all1));
      CutFront(sub, gap + all1);
      CutFront(gap, all1);
      assert c.NewEnd() == next.newPos ==> gap + all1 == all1;
      RoundOfCover(c, next, oldData, newData, isZero, feed, One(sub + (gap + all1)), One(gap + all1), One(all1));
      PatchStep(oldData, |newData|, st, State(next.newPos, next.oldPos, newData[..next.newPos], One(all1)));
      PatchOne(rest, oldData, newData, isZero);
    }
  }

  /** For every old and new data below 2^63 bytes and every sorted list of covers in range, the
      streams made of its bsdiff covers patch the old data to the new data: the sub data may be the
      difference under any covers, or left zero when all covers match. */
  lemma {:induction false} StreamsRoundTrip(covers: seq<Cover>, oldData: seq<byte>, newData: seq<byte>, isZero: bool)
    requires |newData| < TWO_63 && |oldData| < TWO_63
    requires Sorted(covers, 0, |newData|) && InOld(covers, |oldData|)
    requires isZero ==> AllMatching(covers, oldData, newData)
    ensures var cs := BsdiffCovers(covers, |newData|);
      && Fitting(cs, oldData, newData, isZero) && Short(cs)
      && Patch(oldData, |newData|,
               Begin(Three(Ctrl(cs), Sub(cs, oldData, newData, isZero), Gaps(cs, |oldData|, newData)))) == Some(newData)
      && Patch(oldData, |newData|, Begin(One(Interlaced(cs, oldData, newData, isZero)))) == Some(newData)
  {
    hide Patch, Sorted, Ctrl, Sub, Gaps, Interlaced, BsdiffCovers, Chain, InOld, Short;
    var cs := BsdiffCovers(covers, |newData|);
    BsdiffCoversChain(covers, |newData|, |oldData|);
    if isZero {
      ChainMatches(covers, cs, oldData, newData);
    }
    FittingShort(cs, oldData, newData, isZero);
    assert newData[..0] == [];
    PatchThree(cs, oldData, newData, isZero);
    PatchOne(cs, oldData, newData, isZero);
  }

  /** The two empty covers match, too. */
  lemma {:induction false} ChainMatches(covers: seq<Cover>, cs: seq<Cover>, oldData: seq<byte>, newData: seq<byte>)
    requires AllMatching(covers, oldData, newData) && cs != [] && Chain(cs, |newData|, |oldData|)
    requires forall i :: 0 <= i < |cs| && cs[i].length > 0 ==> cs[i] in covers
    ensures AllMatching(cs, oldData, newData)
  {
    SortedBounds(cs, cs[0].newPos, |newData|);
    forall i | 0 <= i < |cs| ensures Matching(cs[i], oldData, newData) {
      if cs[i].length > 0 {
        assert cs[i] in covers;
      }
    }
  }
}
