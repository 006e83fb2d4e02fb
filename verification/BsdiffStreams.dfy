/**
 The bsdiff writer: control data and interlaced data as streams that produce their bytes while
 they are read, in pieces of any size (`TCtrlStream`, `TInterlaceStream`), and `serialize_bsdiff`.
 */
module BsdiffStreams {
  import opened Bytes
  import opened BsdiffCodes
  import opened Covers
  import opened BsdiffRoundTrip
  import opened BsdiffFile

  lemma DropMore(rest: seq<byte>, all: seq<byte>, from: nat, n: nat)
    requires from + n <= |all| && rest == all[from..]
    ensures rest[n..] == all[from + n..] && rest[..n] == all[from..from + n]
  {
  }

  // --- control data --------------------------------------------------------------------------------

  /** All triples from cover `i` on. */
  function CtrlFrom(cs: seq<Cover>, i: nat): seq<byte>
    requires Short(cs) && i <= |cs|
  {
    ShortRest(cs, i);
    Ctrl(cs[i..])
  }

  lemma ShortRest(cs: seq<Cover>, i: nat)
    requires Short(cs) && i <= |cs|
    ensures Short(cs[i..])
  {
  }

  lemma {:induction false} CtrlStep(cs: seq<Cover>, i: nat)
    requires Short(cs) && i + 1 < |cs|
    ensures CtrlFrom(cs, i) == Triple(cs[i], cs[i + 1]) + CtrlFrom(cs, i + 1)
  {
    hide Triple;
    assert cs[i..][1..] == cs[i + 1..];
  }

  lemma {:induction false} CtrlLength(cs: seq<Cover>)
    requires Short(cs)
    ensures |Ctrl(cs)| == if |cs| < 2 then 0 else (|cs| - 1) * CTRL_BYTES
  {
    hide Triple;
    if |cs| >= 2 {
      CtrlLength(cs[1..]);
    }
  }

  class CtrlStream {
    const covers: seq<Cover>
    /** How many bytes the buffer takes at most. */
    const bufSize: nat
    const streamSize: nat
    var curPos: nat
    var curi: nat
    var bufi: nat
    var buf: seq<byte>

    ghost predicate Valid()
      reads this
    {
      && |covers| > 0 && Short(covers) && bufSize >= CTRL_BYTES && streamSize == |Ctrl(covers)|
      && curi <= |covers| && bufi <= |buf| && curPos <= streamSize
      && buf[bufi..] + CtrlFrom(covers, curi) == Ctrl(covers)[curPos..]
    }

    constructor (covers: seq<Cover>, bufSize: nat)
      requires |covers| > 0 && Short(covers) && bufSize >= CTRL_BYTES
      ensures Valid() && curPos == 0 && this.covers == covers
    {
      this.covers := covers;
      this.bufSize := bufSize;
      streamSize := (|covers| - 1) * CTRL_BYTES;
      curPos, curi, bufi, buf := 0, 0, 0, [];
      new;
      CtrlLength(covers);
      assert covers[0..] == covers;
      assert Ctrl(covers)[0..] == Ctrl(covers);
    }

    /** `_updateBuf`: as many whole triples as fit. */
    method UpdateBuf()
      requires Valid() && bufi == |buf|
      modifies this`curi, this`bufi, this`buf
      ensures Valid() && bufi == 0
      ensures curPos < streamSize ==> 0 < |buf|
    {
      hide Ctrl, CtrlFrom, Triple, Short;
      ghost var rest := Ctrl(covers)[curPos..];
      assert rest == CtrlFrom(covers, curi) by {
        assert buf[bufi..] == [];
      }
      buf := [];
      bufi := 0;
      assert [] + CtrlFrom(covers, curi) == rest;
      while curi + 1 < |covers| && |buf| + CTRL_BYTES <= bufSize
        invariant curi <= |covers| && bufi == 0
        invariant buf + CtrlFrom(covers, curi) == rest
        invariant buf == [] ==> curi == old(curi)
      {
        CtrlStep(covers, curi);
        ghost var i := curi;
        var c := covers[curi];
        curi := curi + 1;
        var cnext := covers[curi];
        assert c.length < TWO_64 by {
          ShortAt(covers, i);
        }
        var triple := Word(c.length) + Word(Wrap64(cnext.newPos - c.NewEnd()))
                      + Word(SignMagnitude(Wrap64(cnext.oldPos - c.OldEnd())));
        TripleIs(c, cnext, triple);
        Regroup(buf, triple, CtrlFrom(covers, curi));
        buf := buf + triple;
      }
      assert buf[0..] == buf;
      if buf == [] {
        NoTriples(covers, curi);
      }
    }

    /** The next bytes of the buffer. */
    method TakeBuffered(cLen: nat) returns (piece: seq<byte>)
      requires Valid() && bufi + cLen <= |buf|
      modifies this`bufi, this`curPos
      ensures Valid() && curPos == old(curPos) + cLen && piece == Ctrl(covers)[old(curPos)..curPos]
    {
      hide Ctrl, CtrlFrom, Short;
      ghost var all := Ctrl(covers);
      FrontOf(buf[bufi..], CtrlFrom(covers, curi), cLen, all[curPos..]);
      DropMore(all[curPos..], all, curPos, cLen);
      piece := buf[bufi..bufi + cLen];
      assert piece == buf[bufi..][..cLen] && buf[bufi + cLen..] == buf[bufi..][cLen..];
      bufi := bufi + cLen;
      curPos := curPos + cLen;
    }

    /** `readTo`: any piece of the stream at its current position; reading behind the end fails, as
        does reading at another position. */
    method ReadTo(readFromPos: nat, n: nat) returns (ok: bool, out: seq<byte>)
      requires Valid()
      modifies this
      ensures ok == (readFromPos == old(curPos) && readFromPos + n <= streamSize)
      ensures ok ==> Valid() && curPos == readFromPos + n && out == Ctrl(covers)[readFromPos..readFromPos + n]
    {
      hide Ctrl, CtrlFrom, Short;
      out := [];
      if readFromPos != curPos {
        return false, out;
      }
      ghost var all := Ctrl(covers);
      assert all[readFromPos..readFromPos] == [];
      var readLen: nat := n;
      while readLen > 0
        invariant Valid() && curPos + readLen == readFromPos + n && readFromPos <= curPos
        invariant out == all[readFromPos..curPos]
        decreases readLen
      {
        if bufi == |buf| {
          UpdateBuf();
          if bufi >= |buf| {
            return false, out;
          }
        }
        var cLen := |buf| - bufi;
        if cLen > readLen {
          cLen := readLen;
        }
        ghost var mid := curPos;
        var piece := TakeBuffered(cLen);
        JoinSlices(all, readFromPos, mid, curPos);
        out := out + piece;
        readLen := readLen - cLen;
      }
      ok := true;
    }
  }

  lemma ShortAt(cs: seq<Cover>, i: nat)
    requires Short(cs) && i < |cs|
    ensures cs[i].length < TWO_64
  {
  }

  lemma TripleIs(c: Cover, next: Cover, t: seq<byte>)
    requires c.length < TWO_64
    requires t == Word(c.length) + Word(Wrap64(next.newPos - c.NewEnd()))
                  + Word(SignMagnitude(Wrap64(next.oldPos - c.OldEnd())))
    ensures t == Triple(c, next)
  {
  }

  lemma {:induction false} NoTriples(cs: seq<Cover>, i: nat)
    requires Short(cs) && i <= |cs| && i + 1 >= |cs|
    ensures CtrlFrom(cs, i) == []
  {
  }

  /** Taking bytes from the front of the first of two parts. */
  lemma FrontOf(a: seq<byte>, b: seq<byte>, n: nat, all: seq<byte>)
    requires n <= |a| && a + b == all
    ensures a[..n] == all[..n] && a[n..] + b == all[n..]
  {
  }

  // --- interlaced data -------------------------------------------------------------------------------

  /** A stream whose bytes are given (`TNewDataSubDiffStream`, `TNewDataDiffStream`), read in order. */
  class PlainStream {
    const all: seq<byte>
    var curPos: nat

    constructor (all: seq<byte>)
      ensures this.all == all && curPos == 0
    {
      this.all := all;
      curPos := 0;
    }

    method Read(readFromPos: nat, n: nat) returns (ok: bool, out: seq<byte>)
      modifies this`curPos
      ensures ok == (readFromPos == old(curPos) && readFromPos + n <= |all|)
      ensures ok ==> curPos == readFromPos + n && out == all[readFromPos..readFromPos + n]
    {
      out := [];
      ok := readFromPos == curPos && readFromPos + n <= |all|;
      if ok {
        out := all[readFromPos..readFromPos + n];
        curPos := readFromPos + n;
      }
    }
  }

  /** What the interlaced stream is made of. */
  datatype Data = Data(covers: seq<Cover>, oldData: seq<byte>, newData: seq<byte>, isZero: bool) {
    ghost predicate Valid() {
      Fitting(covers, oldData, newData, isZero) && Short(covers)
    }

    ghost function Rest(i: nat): (d: Data)
      requires Valid() && i < |covers|
      ensures d.Valid()
    {
      RestFits(this, i);
      Data(covers[i..], oldData, newData, isZero)
    }

    ghost function AllCtrl(): seq<byte>
      requires Valid()
    {
      Ctrl(covers)
    }

    ghost function AllSub(): seq<byte>
      requires Valid()
    {
      Sub(covers, oldData, newData, isZero)
    }

    ghost function AllGaps(): seq<byte>
      requires Valid()
    {
      Gaps(covers, |oldData|, newData)
    }

    ghost function All(): seq<byte>
      requires Valid()
    {
      Interlaced(covers, oldData, newData, isZero)
    }
  }

  lemma {:induction false} RestFits(d: Data, i: nat)
    requires d.Valid() && i < |d.covers|
    ensures Fitting(d.covers[i..], d.oldData, d.newData, d.isZero) && Short(d.covers[i..])
  {
    hide Fitting;
    ShortRest(d.covers, i);
    if i == 0 {
      assert d.covers[0..] == d.covers;
    } else {
      RestFits(d, i - 1);
      FittingNext(d.covers[i - 1..], d.oldData, d.newData, d.isZero);
      assert d.covers[i - 1..][1..] == d.covers[i..];
    }
  }

  /** The parts of the next cover. */
  lemma {:induction false} NextParts(d: Data, i: nat)
    returns (t: seq<byte>, s: seq<byte>, g: seq<byte>)
    requires d.Valid() && i + 1 < |d.covers|
    ensures var c, next := d.covers[i], d.covers[i + 1];
      |t| == CTRL_BYTES && |s| == c.length && c.NewEnd() <= next.newPos && |g| == next.newPos - c.NewEnd()
    ensures d.Rest(i).AllCtrl() == t + d.Rest(i + 1).AllCtrl()
    ensures d.Rest(i).AllSub() == s + d.Rest(i + 1).AllSub()
    ensures d.Rest(i).AllGaps() == g + d.Rest(i + 1).AllGaps()
    ensures d.Rest(i).All() == t + s + g + d.Rest(i + 1).All()
  {
    hide Triple, SubOf;
    var cs := d.covers[i..];
    RestFits(d, i);
    FittingNext(cs, d.oldData, d.newData, d.isZero);
    assert cs[1..] == d.covers[i + 1..];
    t := Triple(cs[0], cs[1]);
    s := SubOf(cs[0], d.oldData, d.newData, d.isZero);
    g := GapOf(cs[0], cs[1], d.newData);
  }

  /** One cover alone has no data. */
  lemma {:induction false} LastParts(d: Data, i: nat)
    requires d.Valid() && i + 1 == |d.covers|
    ensures d.Rest(i).All() == [] && d.Rest(i).AllCtrl() == []
    ensures d.Rest(i).AllSub() == [] && d.Rest(i).AllGaps() == []
  {
    RestFits(d, i);
  }

  lemma {:induction false} InterlacedLength(cs: seq<Cover>, oldData: seq<byte>, newData: seq<byte>, isZero: bool)
    requires Fitting(cs, oldData, newData, isZero) && Short(cs)
    ensures |Interlaced(cs, oldData, newData, isZero)|
         == |Ctrl(cs)| + |Sub(cs, oldData, newData, isZero)| + |Gaps(cs, |oldData|, newData)|
  {
    hide Triple, SubOf;
    if |cs| >= 2 {
      FittingNext(cs, oldData, newData, isZero);
      InterlacedLength(cs[1..], oldData, newData, isZero);
    }
  }

  /** At `pos` of a stream, `cur` is next and `rest` is behind it. */
  ghost predicate Aligned(all: seq<byte>, pos: nat, cur: seq<byte>, rest: seq<byte>) {
    pos <= |all| && all[pos..] == cur + rest
  }

  lemma Advance(all: seq<byte>, pos: nat, cur: seq<byte>, rest: seq<byte>, n: nat)
    requires Aligned(all, pos, cur, rest) && n <= |cur|
    ensures Aligned(all, pos + n, cur[n..], rest)
    ensures pos + n <= |all| && all[pos..pos + n] == cur[..n]
  {
    FrontOf(cur, rest, n, all[pos..]);
    DropMore(all[pos..], all, pos, n);
  }

  /** Nothing is left of the first part: the second is next. */
  lemma NextPart(all: seq<byte>, pos: nat, a: seq<byte>, b: seq<byte>, rest: seq<byte>)
    requires a == []
    ensures Aligned(all, pos, a, b + rest) <==> Aligned(all, pos, b, rest)
  {
    assert a + (b + rest) == b + rest;
  }

  class InterlaceStream {
    ghost const data: Data
    const covers: seq<Cover>
    const streamSize: nat
    const ctrlStream: CtrlStream
    const subStream: PlainStream
    const diffStream: PlainStream
    var curPos: nat
    var curi: nat
    var curCtrlLen: nat
    var curSubLen: nat
    var curDiffLen: nat
    /** What is left of the current cover's parts. */
    ghost var ctrl: seq<byte>
    ghost var sub: seq<byte>
    ghost var gap: seq<byte>

    ghost predicate Valid()
      reads this, ctrlStream, subStream, diffStream
    {
      && data.Valid() && covers == data.covers && curi < |covers| && streamSize == |data.All()| && curPos <= streamSize
      && ctrlStream.Valid() && ctrlStream.covers == covers && subStream != diffStream
      && subStream.all == data.AllSub() && subStream.curPos <= |subStream.all|
      && diffStream.all == data.AllGaps() && diffStream.curPos <= |diffStream.all|
      && |ctrl| == curCtrlLen && |sub| == curSubLen && |gap| == curDiffLen
      && Aligned(data.AllCtrl(), ctrlStream.curPos, ctrl, data.Rest(curi).AllCtrl())
      && Aligned(data.AllSub(), subStream.curPos, sub, data.Rest(curi).AllSub())
      && Aligned(data.AllGaps(), diffStream.curPos, gap, data.Rest(curi).AllGaps())
      && Aligned(data.All(), curPos, ctrl, sub + (gap + data.Rest(curi).All()))
    }

    constructor (covers: seq<Cover>, ctrlStream: CtrlStream, subStream: PlainStream, diffStream: PlainStream,
                 ghost data: Data)
      requires data.Valid() && covers == data.covers
      requires ctrlStream.Valid() && ctrlStream.covers == covers && ctrlStream.curPos == 0
      requires subStream != diffStream && subStream.curPos == 0 && diffStream.curPos == 0
      requires subStream.all == data.AllSub() && diffStream.all == data.AllGaps()
      ensures Valid() && curPos == 0 && this.data == data
      ensures this.ctrlStream == ctrlStream && this.subStream == subStream && this.diffStream == diffStream
    {
      this.data, this.covers := data, covers;
      this.ctrlStream, this.subStream, this.diffStream := ctrlStream, subStream, diffStream;
      streamSize := ctrlStream.streamSize + |subStream.all| + |diffStream.all|;
      curPos, curi := 0, 0;
      curCtrlLen, curSubLen, curDiffLen := 0, 0, 0;
      ctrl, sub, gap := [], [], [];
      new;
      hide Ctrl, Sub, Gaps, Interlaced, Fitting;
      InterlacedLength(covers, data.oldData, data.newData, data.isZero);
      assert covers[0..] == covers;
      assert data.Rest(0) == data;
      AtStart(data.AllCtrl());
      AtStart(data.AllSub());
      AtStart(data.AllGaps());
      AtStart(data.All());
    }

    /** `_update`: the lengths of the next cover's parts. */
    method Update()
      requires Valid() && curCtrlLen + curSubLen + curDiffLen == 0
      modifies this`curi, this`curCtrlLen, this`curSubLen, this`curDiffLen, this`ctrl, this`sub, this`gap
      ensures Valid()
      ensures curPos < streamSize ==> curCtrlLen + curSubLen + curDiffLen > 0
    {
      hide Ctrl, Sub, Gaps, Interlaced, Fitting, Short;
      if curi + 1 < |covers| {
        ghost var t, s, g := NextParts(data, curi);
        FourParts(t, s, g, data.Rest(curi + 1).All());
        NothingInFront(ctrl, sub, gap, data.Rest(curi).AllCtrl());
        NothingInFront(ctrl, sub, gap, data.Rest(curi).AllSub());
        NothingInFront(ctrl, sub, gap, data.Rest(curi).AllGaps());
        NothingInFront(ctrl, sub, gap, data.Rest(curi).All());
        var c := covers[curi];
        curi := curi + 1;
        var cnext := covers[curi];
        curCtrlLen := 3 * 8;
        curDiffLen := cnext.newPos - c.NewEnd();
        curSubLen := c.length;
        ctrl, sub, gap := t, s, g;
      } else {
        LastParts(data, curi);
      }
    }

    /** Up to `readLen` bytes of the triple. */
    method ReadCtrl(readLen: nat) returns (piece: seq<byte>)
      requires Valid() && readLen > 0 && curCtrlLen > 0
      modifies this`curPos, this`curCtrlLen, this`ctrl, ctrlStream
      ensures Valid() && 0 < |piece| <= readLen && curPos == old(curPos) + |piece|
      ensures piece == data.All()[old(curPos)..curPos]
    {
      hide Ctrl, Sub, Gaps, Interlaced, Fitting, Short, Aligned;
      ghost var all, inter := data.All(), data.Rest(curi).All();
      var cLen := if readLen <= curCtrlLen then readLen else curCtrlLen;
      Advance(data.AllCtrl(), ctrlStream.curPos, ctrl, data.Rest(curi).AllCtrl(), cLen);
      Advance(all, curPos, ctrl, sub + (gap + inter), cLen);
      CtrlIsAll(ctrlStream, data);
      var ok;
      ok, piece := ctrlStream.ReadTo(ctrlStream.curPos, cLen);
      curCtrlLen := curCtrlLen - cLen;
      ctrl := ctrl[cLen..];
      curPos := curPos + cLen;
    }

    /** Up to `readLen` bytes of the sub data. */
    method ReadSub(readLen: nat) returns (piece: seq<byte>)
      requires Valid() && readLen > 0 && curCtrlLen == 0 && curSubLen > 0
      modifies this`curPos, this`curSubLen, this`sub, subStream`curPos
      ensures Valid() && 0 < |piece| <= readLen && curPos == old(curPos) + |piece|
      ensures piece == data.All()[old(curPos)..curPos]
    {
      hide Ctrl, Sub, Gaps, Interlaced, Fitting, Short, Aligned;
      ghost var all, inter := data.All(), data.Rest(curi).All();
      var cLen := if readLen <= curSubLen then readLen else curSubLen;
      Advance(data.AllSub(), subStream.curPos, sub, data.Rest(curi).AllSub(), cLen);
      NextPart(all, curPos, ctrl, sub, gap + inter);
      Advance(all, curPos, sub, gap + inter, cLen);
      var ok;
      ok, piece := subStream.Read(subStream.curPos, cLen);
      curSubLen := curSubLen - cLen;
      sub := sub[cLen..];
      NextPart(all, curPos + cLen, ctrl, sub, gap + inter);
      curPos := curPos + cLen;
    }

    /** Up to `readLen` bytes of the copy data. */
    method ReadGap(readLen: nat) returns (piece: seq<byte>)
      requires Valid() && readLen > 0 && curCtrlLen == 0 && curSubLen == 0 && curDiffLen > 0
      modifies this`curPos, this`curDiffLen, this`gap, diffStream`curPos
      ensures Valid() && 0 < |piece| <= readLen && curPos == old(curPos) + |piece|
      ensures piece == data.All()[old(curPos)..curPos]
    {
      hide Ctrl, Sub, Gaps, Interlaced, Fitting, Short, Aligned;
      ghost var all, inter := data.All(), data.Rest(curi).All();
      var cLen := if readLen <= curDiffLen then readLen else curDiffLen;
      Advance(data.AllGaps(), diffStream.curPos, gap, data.Rest(curi).AllGaps(), cLen);
      NextPart(all, curPos, ctrl, sub, gap + inter);
      NextPart(all, curPos, sub, gap, inter);
      Advance(all, curPos, gap, inter, cLen);
      var ok;
      ok, piece := diffStream.Read(diffStream.curPos, cLen);
      curDiffLen := curDiffLen - cLen;
      gap := gap[cLen..];
      NextPart(all, curPos + cLen, sub, gap, inter);
      NextPart(all, curPos + cLen, ctrl, sub, gap + inter);
      curPos := curPos + cLen;
    }

    /** Up to `readLen` bytes of the part that is next. */
    method ReadPart(readLen: nat) returns (piece: seq<byte>)
      requires Valid() && readLen > 0 && curCtrlLen + curSubLen + curDiffLen > 0
      modifies this, ctrlStream, subStream`curPos, diffStream`curPos
      ensures Valid() && 0 < |piece| <= readLen && curPos == old(curPos) + |piece|
      ensures piece == data.All()[old(curPos)..curPos]
    {
      if curCtrlLen > 0 {
        piece := ReadCtrl(readLen);
      } else if curSubLen > 0 {
        piece := ReadSub(readLen);
      } else {
        piece := ReadGap(readLen);
      }
    }

    /** `readTo`: any piece of the interlaced data at the current position. */
    method ReadTo(readFromPos: nat, n: nat) returns (ok: bool, out: seq<byte>)
      requires Valid()
      modifies this, ctrlStream, subStream`curPos, diffStream`curPos
      ensures ok == (readFromPos == old(curPos) && readFromPos + n <= streamSize)
      ensures ok ==> Valid() && curPos == readFromPos + n && out == data.All()[readFromPos..readFromPos + n]
    {
      hide Ctrl, Sub, Gaps, Interlaced, Fitting, Short;
      out := [];
      if readFromPos != curPos {
        return false, out;
      }
      ghost var all := data.All();
      assert all[readFromPos..readFromPos] == [];
      var readLen: nat := n;
      while readLen > 0
        invariant Valid() && curPos + readLen == readFromPos + n && readFromPos <= curPos
        invariant out == all[readFromPos..curPos]
        decreases readLen
      {
        if curCtrlLen + curSubLen + curDiffLen == 0 {
          Update();
          if curCtrlLen + curSubLen + curDiffLen == 0 {
            return false, out;
          }
        }
        ghost var mid := curPos;
        var piece := ReadPart(readLen);
        JoinSlices(all, readFromPos, mid, curPos);
        out := out + piece;
        readLen := readLen - |piece|;
      }
      ok := true;
    }
  }

  lemma AtStart(s: seq<byte>)
    ensures s[0..] == s && [] + s == s && [] + ([] + ([] + s)) == s
  {
  }

  lemma NothingInFront(a: seq<byte>, b: seq<byte>, c: seq<byte>, s: seq<byte>)
    requires a == [] && b == [] && c == []
    ensures a + s == s && a + (b + s) == s && a + (b + (c + s)) == s
  {
  }

  lemma CtrlIsAll(stream: CtrlStream, data: Data)
    requires stream.Valid() && data.Valid() && stream.covers == data.covers
    ensures stream.streamSize == |data.AllCtrl()| && Ctrl(stream.covers) == data.AllCtrl()
  {
  }

  // --- the writer --------------------------------------------------------------------------------------

  /** `_to_bsdiff_covers`. */
  method ToBsdiffCovers(input: seq<Cover>, newSize: nat) returns (covers: seq<Cover>)
    ensures covers == BsdiffCovers(input, newSize)
  {
    covers := input;
    if |covers| == 0 || covers[0].newPos != 0 || covers[0].oldPos != 0 {
      covers := [Cover(0, 0, 0)] + covers;
    }
    var lastOldPos := 0;
    if |covers| > 0 {
      var lc := covers[|covers| - 1];
      lastOldPos := lc.oldPos + lc.length;
    }
    covers := covers + [Cover(lastOldPos, newSize, 0)];
  }

  lemma NotEmpty(d: Data)
    requires d.Valid()
    ensures |d.covers| > 0
  {
  }

  /** The sub data under all covers. */
  method SubData(covers: seq<Cover>, oldData: seq<byte>, newData: seq<byte>, isZero: bool, ghost d: Data)
    returns (bytes: seq<byte>)
    requires d == Data(covers, oldData, newData, isZero) && d.Valid()
    ensures bytes == d.AllSub()
  {
    hide Sub, Fitting, Short, Ctrl, Gaps, Interlaced, SubOf;
    bytes := [];
    NotEmpty(d);
    ghost var all := d.AllSub();
    assert covers[0..] == covers && d.Rest(0) == d;
    AtStart(all);
    var i := 0;
    while i + 1 < |covers|
      invariant 0 <= i < |covers|
      invariant bytes + d.Rest(i).AllSub() == all
    {
      CoverInRange(d, i);
      var part := SubOf(covers[i], oldData, newData, isZero);
      SubParts(d, i);
      Regroup(bytes, part, d.Rest(i + 1).AllSub());
      bytes := bytes + part;
      i := i + 1;
    }
    LastParts(d, i);
    assert bytes + [] == bytes;
  }

  lemma {:induction false} CoverInRange(d: Data, i: nat)
    requires d.Valid() && i + 1 < |d.covers|
    ensures var c, next := d.covers[i], d.covers[i + 1];
      c.OldEnd() <= |d.oldData| && c.NewEnd() <= next.newPos <= |d.newData|
  {
    RestFits(d, i);
    FittingNext(d.covers[i..], d.oldData, d.newData, d.isZero);
  }

  lemma {:induction false} SubParts(d: Data, i: nat)
    requires d.Valid() && i + 1 < |d.covers|
    requires d.covers[i].OldEnd() <= |d.oldData| && d.covers[i].NewEnd() <= |d.newData|
    ensures d.Rest(i).AllSub() == SubOf(d.covers[i], d.oldData, d.newData, d.isZero) + d.Rest(i + 1).AllSub()
  {
    hide SubOf;
    RestFits(d, i);
    assert d.covers[i..][1..] == d.covers[i + 1..];
  }

  lemma {:induction false} GapParts(d: Data, i: nat)
    requires d.Valid() && i + 1 < |d.covers|
    requires d.covers[i].NewEnd() <= d.covers[i + 1].newPos <= |d.newData|
    ensures d.Rest(i).AllGaps() == GapOf(d.covers[i], d.covers[i + 1], d.newData) + d.Rest(i + 1).AllGaps()
  {
    hide GapOf;
    RestFits(d, i);
    assert d.covers[i..][1..] == d.covers[i + 1..];
  }

  /** The new bytes under no cover. */
  method CopyData(covers: seq<Cover>, newData: seq<byte>, ghost d: Data) returns (bytes: seq<byte>)
    requires covers == d.covers && newData == d.newData && d.Valid()
    ensures bytes == d.AllGaps()
  {
    hide Sub, Fitting, Short, Ctrl, Gaps, Interlaced;
    bytes := [];
    NotEmpty(d);
    ghost var all := d.AllGaps();
    assert covers[0..] == covers && d.Rest(0) == d;
    AtStart(all);
    var i := 0;
    while i + 1 < |covers|
      invariant 0 <= i < |covers|
      invariant bytes + d.Rest(i).AllGaps() == all
    {
      CoverInRange(d, i);
      var part := newData[covers[i].NewEnd()..covers[i + 1].newPos];
      GapParts(d, i);
      Regroup(bytes, part, d.Rest(i + 1).AllGaps());
      bytes := bytes + part;
      i := i + 1;
    }
    LastParts(d, i);
    assert bytes + [] == bytes;
  }

  /** `pushStream` of the control data, in pieces of `step` bytes. */
  method PushCtrl(stream: CtrlStream, step: nat) returns (bytes: seq<byte>)
    requires stream.Valid() && stream.curPos == 0 && step > 0
    modifies stream
    ensures bytes == Ctrl(stream.covers)
  {
    hide Ctrl, CtrlFrom, Short;
    bytes := [];
    ghost var all := Ctrl(stream.covers);
    assert all[0..0] == [];
    var pos: nat := 0;
    while pos < stream.streamSize
      invariant stream.Valid() && pos == stream.curPos && bytes == all[0..pos]
    {
      var n := if step <= stream.streamSize - pos then step else stream.streamSize - pos;
      var ok, piece := stream.ReadTo(pos, n);
      JoinSlices(all, 0, pos, pos + n);
      bytes := bytes + piece;
      pos := pos + n;
    }
    WholeOf(all, pos);
  }

  lemma WholeOf(all: seq<byte>, n: nat)
    requires n == |all|
    ensures all[0..n] == all
  {
  }

  /** `pushStream` of the interlaced data. */
  method PushInterlaced(stream: InterlaceStream, step: nat) returns (bytes: seq<byte>)
    requires stream.Valid() && stream.curPos == 0 && step > 0
    modifies stream, stream.ctrlStream, stream.subStream`curPos, stream.diffStream`curPos
    ensures bytes == stream.data.All()
  {
    hide Ctrl, Sub, Gaps, Interlaced, Fitting, Short;
    bytes := [];
    ghost var all := stream.data.All();
    assert all[0..0] == [];
    var pos: nat := 0;
    while pos < stream.streamSize
      invariant stream.Valid() && pos == stream.curPos && bytes == all[0..pos]
    {
      var n := if step <= stream.streamSize - pos then step else stream.streamSize - pos;
      var ok, piece := stream.ReadTo(pos, n);
      JoinSlices(all, 0, pos, pos + n);
      bytes := bytes + piece;
      pos := pos + n;
    }
    WholeOf(all, pos);
  }

  /** `serialize_bsdiff` with one interlaced stream. */
  method SerializeOne(codec: Codec, covers: seq<Cover>, oldData: seq<byte>, newData: seq<byte>, isZero: bool,
                      bufSize: nat, step: nat, ghost d: Data)
    returns (diff: seq<byte>)
    requires d == Data(covers, oldData, newData, isZero) && d.Valid() && bufSize >= CTRL_BYTES && step > 0
    requires |newData| < TWO_64
    ensures diff == OneStreamFile(codec.pack(d.All()), |newData|)
  {
    hide Ctrl, Sub, Gaps, Interlaced, Fitting, Word;
    NotEmpty(d);
    var ctrlStream := new CtrlStream(covers, bufSize);
    var sub := SubData(covers, oldData, newData, isZero, d);
    var copy := CopyData(covers, newData, d);
    var subStream := new PlainStream(sub);
    var diffStream := new PlainStream(copy);
    var stream := new InterlaceStream(covers, ctrlStream, subStream, diffStream, d);
    var all := PushInterlaced(stream, step);
    diff := ENDSLEY_TYPE + Word(|newData|) + codec.pack(all);
  }

  /** `serialize_bsdiff` with three streams: the two sizes are written over zeros afterwards. */
  method SerializeThree(codec: Codec, covers: seq<Cover>, oldData: seq<byte>, newData: seq<byte>, isZero: bool,
                        bufSize: nat, step: nat, ghost d: Data)
    returns (diff: seq<byte>)
    requires d == Data(covers, oldData, newData, isZero) && d.Valid() && bufSize >= CTRL_BYTES && step > 0
    requires |newData| < TWO_64
    requires |codec.pack(d.AllCtrl())| < TWO_64 && |codec.pack(d.AllSub())| < TWO_64
    ensures diff == ThreeStreamFile(codec.pack(d.AllCtrl()), codec.pack(d.AllSub()), codec.pack(d.AllGaps()), |newData|)
  {
    hide Ctrl, Sub, Gaps, Interlaced, Fitting, Word;
    NotEmpty(d);
    var newLen := Word(|newData|);
    diff := BSDIFF_TYPE + Word(0) + Word(0) + newLen;
    var ctrlStream := new CtrlStream(covers, bufSize);
    var ctrl := PushCtrl(ctrlStream, step);
    var packedCtrl := codec.pack(ctrl);
    diff := diff + packedCtrl;
    diff := diff[..8] + Word(|packedCtrl|) + diff[16..];
    assert diff == BSDIFF_TYPE + (Word(|packedCtrl|) + (Word(0) + (newLen + packedCtrl)));
    var sub := SubData(covers, oldData, newData, isZero, d);
    var packedSub := codec.pack(sub);
    diff := diff + packedSub;
    diff := diff[..16] + Word(|packedSub|) + diff[24..];
    assert diff == BSDIFF_TYPE + Word(|packedCtrl|) + Word(|packedSub|) + newLen + packedCtrl + packedSub;
    var copy := CopyData(covers, newData, d);
    diff := diff + codec.pack(copy);
  }

  lemma {:induction false} SubLength(cs: seq<Cover>, oldData: seq<byte>, newData: seq<byte>, isZero: bool)
    requires Fitting(cs, oldData, newData, isZero)
    ensures cs[0].newPos <= |newData| && |Sub(cs, oldData, newData, isZero)| <= |newData| - cs[0].newPos
  {
    hide SubOf;
    SortedBounds(cs, cs[0].newPos, |newData|);
    if |cs| >= 2 {
      FittingNext(cs, oldData, newData, isZero);
      SubLength(cs[1..], oldData, newData, isZero);
    }
  }

  lemma CoverCount(input: seq<Cover>, newLen: nat)
    ensures 2 <= |BsdiffCovers(input, newLen)| <= |input| + 2
  {
  }

  /** `create_bsdiff` behind the search for covers: the file patches the old data to the new data,
      unless the compressor leaves something too short for the patcher. */
  method CreateBsdiff(codec: Codec, newData: seq<byte>, oldData: seq<byte>, input: seq<Cover>, isEndsley: bool,
                      isZero: bool, bufSize: nat, step: nat)
    returns (diff: seq<byte>)
    requires codec.Valid() && |newData| < TWO_63 && |oldData| < TWO_63 && bufSize >= CTRL_BYTES && step > 0
    requires Sorted(input, 0, |newData|) && InOld(input, |oldData|)
    requires isZero ==> AllMatching(input, oldData, newData)
    requires forall s :: |s| <= CTRL_BYTES * (|input| + 1) || |s| <= |newData| ==> |codec.pack(s)| < TWO_64
    ensures var cs := BsdiffCovers(input, |newData|);
      && Fitting(cs, oldData, newData, isZero) && Short(cs)
      && var p := Pack(codec, cs, oldData, newData, isZero);
         var refused := if isEndsley then |p.all| < 8 else p.ctrl == [] || p.sub == [] || p.copy == [];
         && PatchFile(codec, diff, oldData, |newData|) == (if refused then None else Some(newData))
         && (isEndsley ==> diff == OneStreamFile(p.all, |newData|))
         && (!isEndsley ==> |p.ctrl| < TWO_64 && |p.sub| < TWO_64
                            && diff == ThreeStreamFile(p.ctrl, p.sub, p.copy, |newData|))
  {
    hide PatchFile, ThreeStreamFile, OneStreamFile, Ctrl, Sub, Gaps, Interlaced, Sorted, InOld, Fitting, Short;
    var covers := ToBsdiffCovers(input, |newData|);
    FileRoundTrip(codec, input, oldData, newData, isZero);
    ghost var d := Data(covers, oldData, newData, isZero);
    CtrlLength(covers);
    SubLength(covers, oldData, newData, isZero);
    CoverCount(input, |newData|);
    if isEndsley {
      diff := SerializeOne(codec, covers, oldData, newData, isZero, bufSize, step, d);
    } else {
      diff := SerializeThree(codec, covers, oldData, newData, isZero, bufSize, step, d);
    }
  }
}
