/**
 The bytes of a bsdiff diff, told without the functions that read them: where the words of the control
 stream stand and what they are, the law of every sub byte, the copy bytes, the order in the interlaced
 stream, and the fields of the two file headers.
 */
module BsdiffLayout {
  import opened Bytes
  import opened BsdiffCodes
  import opened Covers
  import opened CoverPieces
  import opened BsdiffRoundTrip
  import opened BsdiffFile
  import WindowContents

  // --- the list of covers ------------------------------------------------------------------------------

  /** The covers written are the given ones, with the empty cover at the begin exactly when the first one
      is not there, and the empty cover at the end. */
  lemma BsdiffCoversAre(cs: seq<Cover>, newLen: nat)
    ensures var bs := BsdiffCovers(cs, newLen);
      var n := |bs| - 1;
      && (if cs != [] && cs[0].newPos == 0 && cs[0].oldPos == 0 then bs[..n] == cs
          else bs[..n] == [Cover(0, 0, 0)] + cs)
      && bs[n] == Cover(if cs == [] then 0 else cs[|cs| - 1].OldEnd(), newLen, 0)
  {
    var bs := BsdiffCovers(cs, newLen);
    var front := if cs == [] || cs[0].newPos != 0 || cs[0].oldPos != 0 then [Cover(0, 0, 0)] + cs else cs;
    assert bs[..|bs| - 1] == front;
    assert cs != [] ==> front[|front| - 1] == cs[|cs| - 1];
  }

  // --- the control stream ------------------------------------------------------------------------------

  /** What a triple holds: the length of the cover, the new bytes up to the next one, and how far that one
      is from its end in the old data, a negative distance as its magnitude with the top bit set. */
  predicate IsTriple(s: seq<byte>, c: Cover, next: Cover) {
    && |s| == 24
    && IsWord(s[..8], c.length)
    && IsWord(s[8..16], next.newPos - c.newPos - c.length)
    && var skip := next.oldPos - c.oldPos - c.length;
       IsWord(s[16..], if skip >= 0 then skip else 0x8000_0000_0000_0000 - skip)
  }

  lemma TripleIs(c: Cover, next: Cover)
    requires c.NewEnd() <= next.newPos < TWO_63 && c.OldEnd() < TWO_63 && next.oldPos < TWO_63
    ensures IsTriple(Triple(c, next), c, next)
  {
    hide Word, IsWord;
    var skip := next.oldPos - c.OldEnd();
    WrapSmall(next.newPos - c.NewEnd());
    StoredSkip(skip);
    var stored: u64 := if skip >= 0 then skip else TWO_63 - skip;
    WordIsWord(c.length);
    WordIsWord(next.newPos - c.NewEnd());
    WordIsWord(stored);
    ThreeWords(Word(c.length), Word(next.newPos - c.NewEnd()), Word(stored));
  }

  lemma StoredSkip(skip: int)
    requires -TWO_63 < skip < TWO_63
    ensures SignMagnitude(Wrap64(skip)) == if skip >= 0 then skip else TWO_63 - skip
  {
    if skip < 0 {
      NegWrap(-skip);
      NegWrap(TWO_64 + skip);
    } else {
      WrapSmall(skip);
    }
  }

  /** Triple `i` of the control stream. */
  lemma {:induction false} CtrlAt(cs: seq<Cover>, i: nat, newLen: nat, oldLen: nat)
    requires i + 1 < |cs| && Chain(cs, newLen, oldLen) && newLen < TWO_63 && oldLen < TWO_63 && Short(cs)
    ensures |Ctrl(cs)| == 24 * (|cs| - 1)
    ensures IsTriple(Ctrl(cs)[24 * i..24 * i + 24], cs[i], cs[i + 1])
    decreases |cs|
  {
    hide Triple, IsTriple, Sorted, InOld;
    ChainNext(cs, newLen, oldLen);
    var t, rest := Triple(cs[0], cs[1]), cs[1..];
    var ctrl := Ctrl(rest);
    assert Short(rest);
    if i == 0 {
      TripleIs(cs[0], cs[1]);
      assert (t + ctrl)[..24] == t;
      if |cs| > 2 {
        CtrlAt(rest, 0, newLen, oldLen);
      }
    } else {
      CtrlAt(rest, i - 1, newLen, oldLen);
      assert (t + ctrl)[24 * i..24 * i + 24] == ctrl[24 * (i - 1)..24 * (i - 1) + 24];
    }
  }

  // --- sub bytes and copy bytes -----------------------------------------------------------------------------

  /** Every sub byte, added to the old byte under the cover, gives the new byte modulo 256. */
  predicate IsSub(s: seq<byte>, c: Cover, oldData: seq<byte>, newData: seq<byte>)
    requires c.OldEnd() <= |oldData| && c.NewEnd() <= |newData|
  {
    |s| == c.length && forall i :: 0 <= i < c.length ==> (oldData[c.oldPos + i] as int + s[i] as int) % 256 == newData[c.newPos + i]
  }

  lemma SubIs(c: Cover, oldData: seq<byte>, newData: seq<byte>, isZero: bool)
    requires c.OldEnd() <= |oldData| && c.NewEnd() <= |newData|
    requires isZero ==> Matching(c, oldData, newData)
    ensures IsSub(SubOf(c, oldData, newData, isZero), c, oldData, newData)
  {
    var s := SubOf(c, oldData, newData, isZero);
    forall i | 0 <= i < c.length ensures (oldData[c.oldPos + i] as int + s[i] as int) % 256 == newData[c.newPos + i] {
      if isZero {
        assert newData[c.newPos..c.NewEnd()][i] == oldData[c.oldPos..c.OldEnd()][i];
      } else {
        SubAdd(newData[c.newPos + i], oldData[c.oldPos + i]);
      }
    }
  }

  function Lengths(cs: seq<Cover>): nat {
    if cs == [] then 0 else cs[0].length + Lengths(cs[1..])
  }

  /** The sub bytes of cover `i` in the sub stream. */
  lemma {:induction false} SubAt(cs: seq<Cover>, i: nat, oldData: seq<byte>, newData: seq<byte>, isZero: bool)
    requires i + 1 < |cs| && Chain(cs, |newData|, |oldData|) && (isZero ==> AllMatching(cs, oldData, newData))
    ensures cs[i].OldEnd() <= |oldData| && cs[i].NewEnd() <= |newData|
    ensures var sub := Sub(cs, oldData, newData, isZero);
      var p := Lengths(cs[..i]);
      p + cs[i].length <= |sub| && IsSub(sub[p..p + cs[i].length], cs[i], oldData, newData)
    decreases |cs|
  {
    hide SubOf, IsSub, Sorted, InOld, Lengths;
    ChainNext(cs, |newData|, |oldData|);
    var rest := cs[1..];
    var first, sub1 := SubOf(cs[0], oldData, newData, isZero), Sub(rest, oldData, newData, isZero);
    if i == 0 {
      SubIs(cs[0], oldData, newData, isZero);
      NoLengths(cs);
      SliceInFront(first, sub1);
    } else {
      assert forall k :: 0 <= k < |rest| ==> rest[k] == cs[k + 1];
      SubAt(rest, i - 1, oldData, newData, isZero);
      LengthsFirst(cs, i);
      var p := Lengths(rest[..i - 1]);
      SliceBehind(first, sub1, p, p + cs[i].length);
    }
  }

  lemma {:induction false} NoLengths(cs: seq<Cover>)
    ensures Lengths(cs[..0]) == 0
  {
  }

  lemma {:induction false} LengthsFirst(cs: seq<Cover>, i: nat)
    requires 0 < i <= |cs|
    ensures Lengths(cs[..i]) == cs[0].length + Lengths(cs[1..][..i - 1])
  {
    assert cs[..i][1..] == cs[1..][..i - 1];
  }

  lemma SliceInFront(a: seq<byte>, b: seq<byte>)
    ensures (a + b)[0..0 + |a|] == a
  {
  }

  lemma SliceBehind(a: seq<byte>, b: seq<byte>, i: nat, j: nat)
    requires i <= j <= |b|
    ensures (a + b)[|a| + i..|a| + j] == b[i..j]
  {
  }

  lemma {:induction false} SubLength(cs: seq<Cover>, oldData: seq<byte>, newData: seq<byte>, isZero: bool)
    requires cs != [] && Chain(cs, |newData|, |oldData|)
    ensures |Sub(cs, oldData, newData, isZero)| == Lengths(cs)
    decreases |cs|
  {
    hide SubOf, Sorted, InOld;
    if |cs| > 1 {
      ChainNext(cs, |newData|, |oldData|);
      SubLength(cs[1..], oldData, newData, isZero);
    }
  }

  lemma {:induction false} NothingInFront(cs: seq<Cover>, pos: nat, end: nat)
    requires cs != [] && Sorted(cs, pos, end)
    ensures forall p: nat :: pos <= p < cs[0].newPos ==> !WindowContents.Covered(cs, p)
  {
    SortedBounds(cs[1..], cs[0].NewEnd(), end);
    forall i | 0 <= i < |cs| ensures cs[0].newPos <= cs[i].newPos {
      assert i > 0 ==> cs[i] == cs[1..][i - 1];
    }
  }

  /** The copy stream is the new bytes under no cover, in their order. */
  lemma {:induction false} GapsAreUncovered(cs: seq<Cover>, oldLen: nat, newData: seq<byte>)
    requires cs != [] && Chain(cs, |newData|, oldLen)
    ensures cs[0].newPos <= |newData|
    ensures Gaps(cs, oldLen, newData) == WindowContents.Uncovered(cs, cs[0].newPos, |newData|, newData)
    decreases |cs|
  {
    hide WindowContents.Covered, WindowContents.Uncovered, Sorted, InOld;
    var n := |newData|;
    if |cs| == 1 {
      WindowContents.UncoveredEnd(cs, n, newData);
    } else {
      ChainNext(cs, n, oldLen);
      var c, rest := cs[0], cs[1..];
      GapsAreUncovered(rest, oldLen, newData);
      SortedTail(cs, n);
      NothingInFront(rest, c.NewEnd(), n);
      WindowContents.UncoveredStretch(rest, c.NewEnd(), rest[0].newPos, false, newData);
      WindowContents.UncoveredSplit(rest, c.NewEnd(), rest[0].newPos, n, newData);
      WindowContents.UncoveredBehind(cs, c.NewEnd(), n, newData);
      WindowContents.UnderFirst(cs);
      WindowContents.UncoveredStretch(cs, c.newPos, c.NewEnd(), true, newData);
      WindowContents.UncoveredSplit(cs, c.newPos, c.NewEnd(), n, newData);
    }
  }

  lemma SortedTail(cs: seq<Cover>, end: nat)
    requires cs != [] && Sorted(cs, cs[0].newPos, end)
    ensures Sorted(cs[1..], cs[0].NewEnd(), end)
  {
  }

  // --- the interlaced stream ----------------------------------------------------------------------------------

  /** The interlaced stream begins with the triple, the sub bytes and the copy bytes of the first cover; the
      same follows for the others. */
  lemma {:induction false} InterlacedFront(cs: seq<Cover>, oldData: seq<byte>, newData: seq<byte>, isZero: bool)
    requires |cs| >= 2 && Short(cs) && Chain(cs, |newData|, |oldData|) && |newData| < TWO_63 && |oldData| < TWO_63
    requires isZero ==> AllMatching(cs, oldData, newData)
    ensures cs[0].OldEnd() <= |oldData| && cs[0].NewEnd() <= cs[1].newPos <= |newData|
    ensures Short(cs[1..]) && Chain(cs[1..], |newData|, |oldData|)
    ensures var all, c := Interlaced(cs, oldData, newData, isZero), cs[0];
      var gap, behind := 24 + c.length, 24 + cs[1].newPos - c.newPos;
      && gap <= behind <= |all|
      && IsTriple(all[..24], c, cs[1]) && IsSub(all[24..gap], c, oldData, newData)
      && all[gap..behind] == newData[c.NewEnd()..cs[1].newPos]
      && all[behind..] == Interlaced(cs[1..], oldData, newData, isZero)
      && (|cs| == 2 ==> |all| == behind)
  {
    hide Triple, SubOf, IsTriple, IsSub, Sorted, InOld;
    ChainNext(cs, |newData|, |oldData|);
    TripleIs(cs[0], cs[1]);
    SubIs(cs[0], oldData, newData, isZero);
    FourSlices(Triple(cs[0], cs[1]), SubOf(cs[0], oldData, newData, isZero), GapOf(cs[0], cs[1], newData),
               Interlaced(cs[1..], oldData, newData, isZero));
  }

  lemma FourSlices(a: seq<byte>, b: seq<byte>, c: seq<byte>, d: seq<byte>)
    ensures var s := a + b + c + d;
      && s[..|a|] == a && s[|a|..|a| + |b|] == b
      && s[|a| + |b|..|a| + |b| + |c|] == c && s[|a| + |b| + |c|..] == d
  {
  }

  // --- the files -----------------------------------------------------------------------------------------------

  /** The bytes spell the text. */
  predicate Spells(s: seq<byte>, text: string) {
    |s| == |text| && forall i :: 0 <= i < |s| ==> s[i] == text[i] as int
  }

  /** The header of the three-stream file: its name, the sizes of the packed control and sub data, and the
      size of the new data; the packed streams follow. */
  lemma ThreeStreamHead(ctrl: seq<byte>, sub: seq<byte>, copy: seq<byte>, newLen: u64)
    requires |ctrl| < TWO_64 && |sub| < TWO_64
    ensures var f := ThreeStreamFile(ctrl, sub, copy, newLen);
      && |f| >= 32 && Spells(f[..8], "BSDIFF40")
      && IsWord(f[8..16], |ctrl|) && IsWord(f[16..24], |sub|) && IsWord(f[24..32], newLen)
      && f[32..] == ctrl + sub + copy
  {
    hide Word, IsWord;
    ThreeStreamParts(ctrl, sub, copy, newLen);
    WordIsWord(|ctrl|);
    WordIsWord(|sub|);
    WordIsWord(newLen);
    SpellsThree();
    var head := BSDIFF_TYPE + Word(|ctrl|) + Word(|sub|) + Word(newLen);
    assert ThreeStreamFile(ctrl, sub, copy, newLen) == head + (ctrl + sub + copy);
  }

  lemma SpellsThree()
    ensures Spells(BSDIFF_TYPE, "BSDIFF40")
  {
  }

  lemma SpellsOne()
    ensures Spells(ENDSLEY_TYPE, "ENDSLEY/BSDIFF43")
  {
  }

  /** The header of the interlaced file: its name and the size of the new data. */
  lemma OneStreamHead(all: seq<byte>, newLen: u64)
    ensures var f := OneStreamFile(all, newLen);
      |f| >= 24 && Spells(f[..16], "ENDSLEY/BSDIFF43") && IsWord(f[16..24], newLen) && f[24..] == all
  {
    hide Word, IsWord, Spells;
    var f := OneStreamFile(all, newLen);
    SpellsOne();
    WordIsWord(newLen);
    assert f[..16] == ENDSLEY_TYPE;
    assert f[16..24] == Word(newLen);
  }

  // --- patching -------------------------------------------------------------------------------------------------

  lemma {:induction false} RoundExtends(oldData: seq<byte>, newLen: nat, st: State)
    requires Round(oldData, newLen, st).Some?
    ensures var r := Round(oldData, newLen, st).value;
      st.out <= r.out && |r.out| - |st.out| == r.newPos - st.newPos
  {
    hide TakeCtrl, TakeSub, TakeCopy, ReadUInt64, OldPosAfter;
  }

  /** A patch that succeeds made exactly the announced number of bytes, whatever the streams hold. */
  lemma {:induction false} PatchedLength(oldData: seq<byte>, newLen: nat, st: State)
    requires Patch(oldData, newLen, st).Some? && |st.out| == st.newPos
    ensures |Patch(oldData, newLen, st).value| == newLen
    decreases Size(st.feed)
  {
    hide Round;
    if st.newPos < newLen {
      RoundExtends(oldData, newLen, st);
      PatchedLength(oldData, newLen, Round(oldData, newLen, st).value);
    }
  }
}
