/**
 The whole written VCDIFF file: behind its header one window for each part of the tiling, and in each
 window exactly the covers of that part.
 */
module FileLayout {
  import opened Bytes
  import opened AddrCache
  import opened AddrHistory
  import opened InstCoder
  import opened Covers
  import opened WindowCodes
  import opened WindowContents
  import opened VcdiffFormat
  import opened VcdiffRoundTrip
  import opened VcdiffFile
  import opened WindowTiling
  import opened VcdiffLayout

  // --- covers behind a window have no part in it -------------------------------------------------------

  /** All covers have bytes and begin at `end` or behind it. */
  predicate Behind(cs: seq<Cover>, end: nat) {
    forall i :: 0 <= i < |cs| ==> cs[i].newPos >= end && cs[i].length > 0
  }

  lemma {:induction false} WritesFront(codes: seq<VcCode>, a: seq<Cover>, b: seq<Cover>, pos: nat, end: nat, e: Env,
                                       addrs: seq<u64>)
    requires WritesCovers(codes, a + b, pos, end, e, addrs) && Behind(b, end)
    ensures WritesCovers(codes, a, pos, end, e, addrs)
    decreases |codes|
  {
    hide Chosen;
    FrontGap(a, b, end);
    if codes != [] && codes[0].AddCode? {
      WritesFront(codes[1..], a, b, pos + codes[0].size, end, e, addrs);
    } else if codes != [] {
      FrontCover(a, b, end, pos, codes[0].size);
      WritesFront(codes[1..], a[1..], b, pos + codes[0].size, end, e, addrs + [Wrap64(a[0].oldPos - e.srcPos)]);
    }
  }

  lemma FrontGap(a: seq<Cover>, b: seq<Cover>, end: nat)
    requires Behind(b, end)
    ensures GapEnd(a + b, end) == GapEnd(a, end)
  {
    if a != [] {
      assert (a + b)[0] == a[0];
    } else {
      assert a + b == b;
    }
  }

  /** A cover that begins and ends in the window is one of its own. */
  lemma FrontCover(a: seq<Cover>, b: seq<Cover>, end: nat, pos: nat, size: nat)
    requires Behind(b, end) && a + b != [] && pos == (a + b)[0].newPos && size == (a + b)[0].length && pos + size <= end
    ensures a != [] && (a + b)[0] == a[0] && (a + b)[1..] == a[1..] + b
  {
    assert a == [] ==> a + b == b;
  }

  lemma CoveredFront(a: seq<Cover>, b: seq<Cover>, end: nat, p: nat)
    requires Behind(b, end) && p < end
    ensures Covered(a + b, p) <==> Covered(a, p)
  {
    if i :| 0 <= i < |a| && a[i].newPos <= p < a[i].NewEnd() {
      assert (a + b)[i] == a[i];
    }
    if i :| 0 <= i < |a + b| && (a + b)[i].newPos <= p < (a + b)[i].NewEnd() {
      assert i < |a| ==> a[i] == (a + b)[i];
      assert i >= |a| ==> b[i - |a|] == (a + b)[i];
    }
  }

  lemma {:induction false} UncoveredFront(a: seq<Cover>, b: seq<Cover>, pos: nat, end: nat, newData: seq<byte>)
    requires pos <= end <= |newData| && Behind(b, end)
    ensures Uncovered(a + b, pos, end, newData) == Uncovered(a, pos, end, newData)
    decreases end - pos
  {
    if pos < end {
      CoveredFront(a, b, end, pos);
      UncoveredStep(a, pos, end, newData);
      UncoveredStep(a + b, pos, end, newData);
      hide *;
      UncoveredFront(a, b, pos + 1, end, newData);
    }
  }

  lemma {:induction false} UncoveredStep(cs: seq<Cover>, pos: nat, end: nat, newData: seq<byte>)
    requires pos < end <= |newData|
    ensures Uncovered(cs, pos, end, newData)
         == (if Covered(cs, pos) then [] else [newData[pos]]) + Uncovered(cs, pos + 1, end, newData)
  {
  }

  // --- one window ------------------------------------------------------------------------------------------

  /** The window `w` in front of `rest` is that of the part `t`: its source and target lengths and positions,
      one COPY for each cover of the part and one ADD for each gap, and the bytes under no cover of it. */
  ghost predicate IsWindowOf(w: seq<byte>, rest: seq<byte>, t: Target, srcPos: nat, srcLen: nat, newData: seq<byte>) {
    && t.pos <= t.end <= |newData|
    && exists body: seq<byte>, delta: seq<byte>, lens: seq<byte>, codes: seq<VcCode> ::
         WindowHolds(w + rest, rest, t, srcPos, srcLen, newData, body, delta, lens, codes)
  }

  ghost predicate WindowHolds(s: seq<byte>, rest: seq<byte>, t: Target, srcPos: nat, srcLen: nat, newData: seq<byte>,
                              body: seq<byte>, delta: seq<byte>, lens: seq<byte>, codes: seq<VcCode>)
    requires t.pos <= t.end <= |newData|
  {
    && s != [] && s[0] == (if srcLen > 0 then 1 else 0)
    && (if srcLen > 0 then Numbers(s[1..], [srcLen, srcPos], body) else s[1..] == body)
    && ValidCodes(codes) && WritesCovers(codes, t.covers, t.pos, t.end, Env(t.pos, srcPos, srcLen), [])
    && IsDelta(body, delta, lens, t.end - t.pos, Uncovered(t.covers, t.pos, t.end, newData),
               InstOf(codes), AddrOf(codes), rest)
  }

  lemma {:induction false} WindowOfPart(t: Target, behind: seq<Cover>, srcPos: nat, srcLen: nat, newData: seq<byte>,
                                        rest: seq<byte>)
    requires t.pos <= t.end <= |newData| < TWO_64 && t.end - t.pos <= MAX_WINDOW
    requires Ordered(t.covers + behind, t.pos, |newData|) && Fits(t.covers + behind, t.end) && Behind(behind, t.end)
    requires srcLen < TWO_64 && srcPos < TWO_64
    ensures IsWindowOf(WindowBytes(t.covers + behind, t.end, Env(t.pos, srcPos, srcLen), newData), rest, t,
                       srcPos, srcLen, newData)
  {
    hide WindowBytes, Ordered, Fits, WritesCovers, Uncovered, IsDelta, Numbers, InstOf, AddrOf, ValidCodes, Behind;
    var e := Env(t.pos, srcPos, srcLen);
    var body, delta, lens, codes := WindowLayout(t.covers + behind, t.end, e, newData, rest);
    WritesFront(codes, t.covers, behind, t.pos, t.end, e, []);
    UncoveredFront(t.covers, behind, t.pos, t.end, newData);
    var w := WindowBytes(t.covers + behind, t.end, e, newData);
    assert WindowHolds(w + rest, rest, t, srcPos, srcLen, newData, body, delta, lens, codes);
  }

  // --- all windows -------------------------------------------------------------------------------------------

  /** The windows of all parts, in their order. */
  ghost predicate AreWindows(ws: seq<seq<byte>>, ts: seq<Target>, srcPos: nat, srcLen: nat, newData: seq<byte>) {
    |ws| == |ts| && forall i :: 0 <= i < |ws| ==> IsWindowOf(ws[i], Joined(ws[i + 1..]), ts[i], srcPos, srcLen, newData)
  }

  lemma {:induction false} FirstOfWindows(w: seq<byte>, ws: seq<seq<byte>>, t: Target, ts: seq<Target>,
                                          srcPos: nat, srcLen: nat, newData: seq<byte>)
    requires AreWindows(ws, ts, srcPos, srcLen, newData) && IsWindowOf(w, Joined(ws), t, srcPos, srcLen, newData)
    ensures AreWindows([w] + ws, [t] + ts, srcPos, srcLen, newData)
  {
    hide IsWindowOf, Joined;
    var all := [w] + ws;
    forall i | 0 <= i < |all|
      ensures IsWindowOf(all[i], Joined(all[i + 1..]), ([t] + ts)[i], srcPos, srcLen, newData)
    {
      if i == 0 {
        assert all[1..] == ws;
      } else {
        assert all[i + 1..] == ws[i..];
      }
    }
  }

  lemma OrderedBehind(cs: seq<Cover>, pos: nat, end: nat)
    requires Ordered(cs, pos, end)
    ensures Behind(cs, pos)
  {
    OrderedBounds(cs, pos, end);
  }

  /** The windows that the loop writes. */
  lemma {:induction false} WrittenWindows(cs: seq<Cover>, pos: nat, srcPos: nat, srcLen: nat, max: nat,
                                          oldData: seq<byte>, newData: seq<byte>)
    returns (ws: seq<seq<byte>>)
    requires Input(cs, pos, srcPos, srcLen, max, oldData, newData) && pos <= |newData|
    ensures AllWindows(cs, pos, srcPos, srcLen, max, newData) == Joined(ws)
    ensures AreWindows(ws, Targets(cs, pos, |newData|, max), srcPos, srcLen, newData)
    decreases |newData| - pos
  {
    hide *;
    if pos == |newData| {
      NoTarget(cs, pos, srcPos, srcLen, max, oldData, newData);
      ws := [];
      NoWindow(srcPos, srcLen, newData);
    } else {
      var t, rest := WindowAndTarget(cs, pos, srcPos, srcLen, max, oldData, newData);
      var tail := WrittenWindows(rest, t.end, srcPos, srcLen, max, oldData, newData);
      OrderedBehind(rest, t.end, |newData|);
      WindowOfPart(t, rest, srcPos, srcLen, newData, Joined(tail));
      var w := WindowBytes(cs, t.end, Env(pos, srcPos, srcLen), newData);
      FirstOfWindows(w, tail, t, Targets(rest, t.end, |newData|, max), srcPos, srcLen, newData);
      ws := [w] + tail;
      JoinedFirst(w, tail);
    }
  }

  lemma {:induction false} JoinedFirst(w: seq<byte>, ws: seq<seq<byte>>)
    ensures Joined([w] + ws) == w + Joined(ws)
  {
    assert ([w] + ws)[1..] == ws;
  }

  lemma NoWindow(srcPos: nat, srcLen: nat, newData: seq<byte>)
    ensures AreWindows([], [], srcPos, srcLen, newData) && Joined<byte>([]) == []
  {
  }
}
