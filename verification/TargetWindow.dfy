/**
 Cutting the new data into target windows (`_getTargetWindow`) and choosing the source window
 (`_getSrcWindow`).
 */
module TargetWindow {
  import opened Bytes
  import opened Covers
  import opened WindowCodes

  // --- where a window ends ---------------------------------------------------------------------

  /** The end of a window that has reached `cur` and must not pass `limit`; `cs` are the covers
      not taken yet and `end` is the end of the new data. */
  function WindowEnd(cs: seq<Cover>, cur: nat, end: nat, limit: nat): nat {
    var pos := if cs == [] then end else cs[0].newPos;
    if pos > cur && pos >= limit then limit
    else
      var at := if pos > cur then pos else cur;
      if cs == [] || at + cs[0].length > limit then at
      else WindowEnd(cs[1..], at + cs[0].length, end, limit)
  }

  /** How many covers the window takes. */
  function Taken(cs: seq<Cover>, cur: nat, end: nat, limit: nat): (k: nat)
    ensures k <= |cs|
  {
    var pos := if cs == [] then end else cs[0].newPos;
    if pos > cur && pos >= limit then 0
    else
      var at := if pos > cur then pos else cur;
      if cs == [] || at + cs[0].length > limit then 0
      else 1 + Taken(cs[1..], at + cs[0].length, end, limit)
  }

  predicate ShortCovers(cs: seq<Cover>, max: nat) {
    forall i :: 0 <= i < |cs| ==> cs[i].length <= max
  }

  ghost predicate EndInside(cs: seq<Cover>, k: nat, wEnd: nat)
    requires k <= |cs|
  {
    forall i :: 0 <= i < k ==> cs[i].NewEnd() <= wEnd
  }

  /** A first cover that ends in the window. */
  lemma FirstInside(c: Cover, rest: seq<Cover>, k: nat, wEnd: nat)
    requires k <= |rest| && c.NewEnd() <= wEnd && Fits(rest, wEnd) && EndInside(rest, k, wEnd)
    ensures Fits([c] + rest, wEnd) && EndInside([c] + rest, k + 1, wEnd)
  {
    var cs := [c] + rest;
    forall i | 0 <= i < |cs| && cs[i].newPos < wEnd ensures cs[i].NewEnd() <= wEnd {
      assert i > 0 ==> cs[i] == rest[i - 1];
    }
    forall i | 0 <= i < k + 1 ensures cs[i].NewEnd() <= wEnd {
      assert i > 0 ==> cs[i] == rest[i - 1];
    }
  }

  lemma {:induction false} WindowTakesFirst(cs: seq<Cover>, cur: nat, end: nat, limit: nat)
    requires Ordered(cs, cur, end) && cs != [] && cur <= limit && cs[0].NewEnd() <= limit
    ensures Ordered(cs[1..], cs[0].NewEnd(), end)
    ensures WindowEnd(cs, cur, end, limit) == WindowEnd(cs[1..], cs[0].NewEnd(), end, limit)
    ensures Taken(cs, cur, end, limit) == 1 + Taken(cs[1..], cs[0].NewEnd(), end, limit)
  {
  }

  /** The end stays inside the limit and the new data, no cover is cut, the covers taken end in
      the window and the others start behind it. */
  lemma {:induction false} WindowEndIsGood(cs: seq<Cover>, cur: nat, end: nat, limit: nat)
    requires Ordered(cs, cur, end) && cur <= limit
    ensures var wEnd := WindowEnd(cs, cur, end, limit);
      var k := Taken(cs, cur, end, limit);
      && cur <= wEnd <= limit && wEnd <= end
      && Fits(cs, wEnd) && EndInside(cs, k, wEnd)
      && Ordered(cs[k..], wEnd, end)
  {
    OrderedBounds(cs, cur, end);
    if cs == [] {
    } else if cs[0].newPos > cur && cs[0].newPos >= limit {
      NoneBefore(cs, cur, end, limit);
    } else if cs[0].NewEnd() > limit {
      NoneBefore(cs, cur, end, cs[0].newPos);
    } else {
      WindowTakesFirst(cs, cur, end, limit);
      hide Fits, EndInside, Ordered, WindowEnd, Taken;
      var c, rest := cs[0], cs[1..];
      WindowEndIsGood(rest, c.NewEnd(), end, limit);
      var k := Taken(rest, c.NewEnd(), end, limit);
      assert cs == [c] + rest && cs[k + 1..] == rest[k..];
      FirstInside(c, rest, k, WindowEnd(rest, c.NewEnd(), end, limit));
    }
  }

  /** A window ends no earlier than it must: at the limit, at the end of the new data, or in front of
      a cover that does not fit. */
  lemma {:induction false} WindowIsLargest(cs: seq<Cover>, cur: nat, end: nat, limit: nat)
    requires Ordered(cs, cur, end) && cur <= limit
    ensures var wEnd := WindowEnd(cs, cur, end, limit);
      var k := Taken(cs, cur, end, limit);
      || wEnd == limit
      || (k == |cs| && wEnd == end)
      || (k < |cs| && wEnd == cs[k].newPos && cs[k].NewEnd() > limit)
  {
    if cs != [] && cs[0].newPos <= limit && cs[0].NewEnd() <= limit {
      WindowIsLargest(cs[1..], cs[0].NewEnd(), end, limit);
    }
  }

  /** No cover starts before a position that is not behind the first one. */
  lemma {:induction false} NoneBefore(cs: seq<Cover>, cur: nat, end: nat, at: nat)
    requires Ordered(cs, cur, end) && cs != [] && at <= cs[0].newPos
    ensures Fits(cs, at) && Ordered(cs, at, end)
  {
    OrderedBounds(cs[1..], cs[0].NewEnd(), end);
    forall i | 0 <= i < |cs| ensures at <= cs[i].newPos {
      assert i > 0 ==> cs[i] == cs[1..][i - 1];
    }
  }

  /** A window is never empty when every cover fits into one and something is left. */
  lemma {:induction false} WindowProgress(cs: seq<Cover>, cur: nat, end: nat, max: nat)
    requires Ordered(cs, cur, end) && cur < end && 0 < max && ShortCovers(cs, max)
    ensures WindowEnd(cs, cur, end, cur + max) > cur
  {
    if cs != [] && cs[0].NewEnd() <= cur + max {
      WindowEndIsGood(cs[1..], cs[0].NewEnd(), end, cur + max);
    }
  }

  // --- the loop ----------------------------------------------------------------------------------

  lemma DropFirst(covers: seq<Cover>, i: nat)
    requires i < |covers|
    ensures covers[i..] != [] && covers[i..][0] == covers[i] && covers[i..][1..] == covers[i + 1..]
  {
  }

  /** The next cover ends the window, or is taken. */
  lemma {:induction false} OneCover(cs: seq<Cover>, cur: nat, end: nat, limit: nat)
    requires Ordered(cs, cur, end)
    ensures var pos := if cs == [] then end else cs[0].newPos;
      && cur <= pos
      && if pos > cur && pos >= limit then WindowEnd(cs, cur, end, limit) == limit && Taken(cs, cur, end, limit) == 0
         else if cs == [] || pos + cs[0].length > limit then
           WindowEnd(cs, cur, end, limit) == pos && Taken(cs, cur, end, limit) == 0
         else
           && Ordered(cs[1..], pos + cs[0].length, end)
           && WindowEnd(cs, cur, end, limit) == WindowEnd(cs[1..], pos + cs[0].length, end, limit)
           && Taken(cs, cur, end, limit) == 1 + Taken(cs[1..], pos + cs[0].length, end, limit)
  {
  }

  /** Returns the index behind the covers taken, and the window's length. */
  method GetTargetWindow(targetPos: nat, targetPosEnd: nat, covers: seq<Cover>, coveri: nat, maxSize: nat)
    returns (coveriEnd: nat, targetLen: nat)
    requires coveri <= |covers| && Ordered(covers[coveri..], targetPos, targetPosEnd)
    requires targetPos < targetPosEnd && 0 < maxSize && ShortCovers(covers[coveri..], maxSize)
    ensures coveriEnd == coveri + Taken(covers[coveri..], targetPos, targetPosEnd, targetPos + maxSize)
    ensures targetPos + targetLen == WindowEnd(covers[coveri..], targetPos, targetPosEnd, targetPos + maxSize)
  {
    hide WindowEnd, Taken, Ordered;
    ghost var limit := targetPos + maxSize;
    var cur := targetPos;
    targetLen := 0;
    coveriEnd := coveri;
    var i := coveri;
    while i <= |covers|
      invariant coveri <= i <= |covers| + 1
      invariant cur == targetPos + targetLen && targetLen <= maxSize
      invariant i <= |covers| ==>
                  && coveriEnd == i && Ordered(covers[i..], cur, targetPosEnd)
                  && WindowEnd(covers[i..], cur, targetPosEnd, limit)
                     == WindowEnd(covers[coveri..], targetPos, targetPosEnd, limit)
                  && i + Taken(covers[i..], cur, targetPosEnd, limit)
                     == coveri + Taken(covers[coveri..], targetPos, targetPosEnd, limit)
      invariant i == |covers| + 1 ==>
                  && coveriEnd == coveri + Taken(covers[coveri..], targetPos, targetPosEnd, limit)
                  && cur == WindowEnd(covers[coveri..], targetPos, targetPosEnd, limit)
    {
      var pos := if i < |covers| then covers[i].newPos else targetPosEnd;
      OneCover(covers[i..], cur, targetPosEnd, limit);
      if pos > cur {
        var targetInc := pos - cur;
        if targetLen + targetInc < maxSize {
          targetLen := targetLen + targetInc;
          cur := cur + targetInc;
        } else {
          targetLen := maxSize;
          break;
        }
      }
      if i < |covers| {
        var targetInc := covers[i].length;
        if targetLen + targetInc <= maxSize {
          DropFirst(covers, i);
          coveriEnd := i + 1;
          targetLen := targetLen + targetInc;
          cur := cur + targetInc;
        } else {
          assert targetLen > 0 by {
            assert covers[i] == covers[coveri..][i - coveri];
          }
          break;
        }
      }
      i := i + 1;
    }
  }

  // --- the source window ---------------------------------------------------------------------------

  /** The smallest range of the old data that holds all covers; (0, 0) without covers. */
  ghost predicate IsSrcWindow(cs: seq<Cover>, srcPos: nat, srcEnd: nat) {
    if cs == [] then srcPos == 0 && srcEnd == 0
    else
      && (forall i :: 0 <= i < |cs| ==> srcPos <= cs[i].oldPos && cs[i].OldEnd() <= srcEnd)
      && (exists i :: 0 <= i < |cs| && srcPos == cs[i].oldPos)
      && (exists i :: 0 <= i < |cs| && srcEnd == cs[i].OldEnd())
  }

  method GetSrcWindow(covers: seq<Cover>) returns (srcPos: nat, srcEnd: nat)
    requires forall i :: 0 <= i < |covers| ==> covers[i].OldEnd() < TWO_64
    ensures IsSrcWindow(covers, srcPos, srcEnd)
  {
    if |covers| == 0 {
      return 0, 0;
    }
    srcPos := TWO_64 - 1;
    srcEnd := 0;
    var i := 0;
    while i < |covers|
      invariant 0 <= i <= |covers|
      invariant forall j :: 0 <= j < i ==> srcPos <= covers[j].oldPos && covers[j].OldEnd() <= srcEnd
      invariant i == 0 ==> srcPos == TWO_64 - 1 && srcEnd == 0
      invariant i > 0 ==> exists j :: 0 <= j < i && srcPos == covers[j].oldPos
      invariant i > 0 ==> exists j :: 0 <= j < i && srcEnd == covers[j].OldEnd()
    {
      var pos := covers[i].oldPos;
      srcPos := if pos < srcPos then pos else srcPos;
      pos := pos + covers[i].length;
      srcEnd := if pos < srcEnd then srcEnd else pos;
      i := i + 1;
    }
  }
}
