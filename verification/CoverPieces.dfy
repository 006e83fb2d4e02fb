/**
 What clipping keeps: every new byte is still copied from the same old byte, or still from none, and a long
 cover is cut into as few pieces of one length as the limit allows.
 */
module CoverPieces {
  import opened Bytes
  import opened Covers
  import opened ClipCovers

  predicate Copies(c: Cover, newAt: int, oldAt: int) {
    c.newPos <= newAt < c.NewEnd() && oldAt - c.oldPos == newAt - c.newPos
  }

  /** Some cover copies the new byte at `newAt` from the old byte at `oldAt`. */
  predicate CopiedFrom(cs: seq<Cover>, newAt: int, oldAt: int) {
    exists i :: 0 <= i < |cs| && Copies(cs[i], newAt, oldAt)
  }

  lemma CopiedFromEither(a: seq<Cover>, b: seq<Cover>, newAt: int, oldAt: int)
    ensures CopiedFrom(a + b, newAt, oldAt) <==> CopiedFrom(a, newAt, oldAt) || CopiedFrom(b, newAt, oldAt)
  {
    hide Copies;
    if i :| 0 <= i < |a| && Copies(a[i], newAt, oldAt) {
      assert (a + b)[i] == a[i];
    }
    if i :| 0 <= i < |b| && Copies(b[i], newAt, oldAt) {
      assert (a + b)[|a| + i] == b[i];
    }
  }

  lemma CopiedFromOne(c: Cover, newAt: int, oldAt: int)
    ensures CopiedFrom([c], newAt, oldAt) <==> Copies(c, newAt, oldAt)
  {
    assert [c][0] == c;
  }

  lemma {:induction false} TilesCopy(ps: seq<Cover>, oldPos: nat, newPos: nat, total: nat, max: nat, newAt: int, oldAt: int)
    requires Tiles(ps, oldPos, newPos, total, max)
    ensures CopiedFrom(ps, newAt, oldAt) <==> newPos <= newAt < newPos + total && oldAt - oldPos == newAt - newPos
  {
    if ps != [] {
      TilesCopy(ps[1..], oldPos + ps[0].length, newPos + ps[0].length, total - ps[0].length, max, newAt, oldAt);
      CopiedFromOne(ps[0], newAt, oldAt);
      CopiedFromEither([ps[0]], ps[1..], newAt, oldAt);
      assert ps == [ps[0]] + ps[1..];
    }
  }

  /** Clipping changes no copy, adds none and loses none: for all covers, every limit and every pair of
      positions. */
  lemma {:induction false} ClipKeepsCopies(cs: seq<Cover>, limit: nat, newAt: int, oldAt: int)
    requires 0 < limit && forall i :: 0 <= i < |cs| ==> cs[i].length > 0
    ensures CopiedFrom(Flat(cs, limit), newAt, oldAt) <==> CopiedFrom(cs, newAt, oldAt)
  {
    if cs != [] {
      var c := cs[0];
      ClipKeepsCopies(cs[1..], limit, newAt, oldAt);
      assert Flat(cs, limit) == Pieces(c, limit) + Flat(cs[1..], limit);
      hide CopiedFrom, Flat, Pieces;
      CopiedFromEither(Pieces(c, limit), Flat(cs[1..], limit), newAt, oldAt);
      PiecesTile(c, limit);
      TilesCopy(Pieces(c, limit), c.oldPos, c.newPos, c.length, limit, newAt, oldAt);
      CopiedFromOne(c, newAt, oldAt);
      CopiedFromEither([c], cs[1..], newAt, oldAt);
      assert cs == [c] + cs[1..];
    }
  }

  /** The pieces of all covers stand in the order of the covers, and a cover is cut on its own. */
  lemma {:induction false} ClipIsByCover(a: seq<Cover>, b: seq<Cover>, limit: nat)
    requires 0 < limit
    ensures Flat(a + b, limit) == Flat(a, limit) + Flat(b, limit)
  {
    if a == [] {
      assert a + b == b && [] + Flat(b, limit) == Flat(b, limit);
    } else {
      var rest := a[1..] + b;
      assert (a + b)[1..] == rest && (a + b)[0] == a[0];
      ClipFirst(a, limit);
      ClipFirst(a + b, limit);
      hide Flat, Pieces;
      ClipIsByCover(a[1..], b, limit);
      Regroup(Pieces(a[0], limit), Flat(a[1..], limit), Flat(b, limit));
    }
  }

  lemma {:induction false} ClipFirst(cs: seq<Cover>, limit: nat)
    requires 0 < limit && cs != []
    ensures Flat(cs, limit) == Pieces(cs[0], limit) + Flat(cs[1..], limit)
  {
  }

  lemma {:induction false} ClipOfOne(c: Cover, limit: nat)
    requires 0 < limit
    ensures Flat([c], limit) == Pieces(c, limit)
  {
    assert [c][1..] == [];
  }

  // --- the shape of the pieces ---------------------------------------------------------------------------

  lemma {:induction false} PiecesAt(oldPos: nat, newPos: nat, total: nat, len: nat, count: nat)
    requires 0 < len && Needs(count, len, total)
    ensures var ps := PiecesFrom(oldPos, newPos, total, len);
      |ps| == count && forall k :: 0 <= k < count ==>
        ps[k] == Cover(oldPos + k * len, newPos + k * len, if k < count - 1 then len else total - (count - 1) * len)
    decreases total
  {
    PiecesLeft(count, len, total);
    if count > 1 {
      PiecesAt(oldPos + len, newPos + len, total - len, len, count - 1);
      var ps, rest := PiecesFrom(oldPos, newPos, total, len), PiecesFrom(oldPos + len, newPos + len, total - len, len);
      assert ps == [Cover(oldPos, newPos, len)] + rest;
      hide PiecesFrom;
      forall k | 0 <= k < count
        ensures ps[k] == Cover(oldPos + k * len, newPos + k * len, if k < count - 1 then len else total - (count - 1) * len)
      {
        if k > 0 {
          OneMore(k, len);
          OneMore(count - 1, len);
          assert ps[k] == rest[k - 1];
        }
      }
    }
  }

  lemma OneMore(k: nat, len: nat)
    requires k > 0
    ensures len + (k - 1) * len == k * len
  {
  }

  /** A short cover stays; a long one becomes the least number of pieces that the limit allows, all but the
      last of the least length with which that number is enough. */
  lemma PieceShape(c: Cover, limit: nat)
    requires 0 < limit
    ensures var ps := Pieces(c, limit);
      if c.length <= limit then ps == [c]
      else
        var n, len := |ps|, ps[0].length;
        && (n - 1) * limit < c.length <= n * limit
        && (len - 1) * n < c.length <= len * n
        && forall k :: 0 <= k < n ==>
             && ps[k].oldPos == c.oldPos + k * len && ps[k].newPos == c.newPos + k * len
             && ps[k].length == if k < n - 1 then len else c.length - (n - 1) * len
  {
    if c.length > limit {
      var n, len := PieceCount(c.length, limit), PieceLength(c.length, limit);
      PieceBounds(c.length, limit);
      DivBounds(c.length + limit - 1, limit);
      DivBounds(c.length + n - 1, n);
      OneMore(n, limit);
      OneMore(len, n);
      PiecesAt(c.oldPos, c.newPos, c.length, len, n);
      assert 0 * len == 0;
    }
  }
}
