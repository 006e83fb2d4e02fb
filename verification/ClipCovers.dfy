/**
 Cutting long covers into pieces (`_clipCovers`), so that every piece fits into half a target
 window: first pieces stay in place, the others go to the end, and a merge restores the order.
 */
module ClipCovers {
  import opened Bytes
  import opened Covers

  // --- one cover ---------------------------------------------------------------------------------

  function PieceCount(total: nat, limit: nat): nat
    requires limit > 0
  {
    (total + limit - 1) / limit
  }

  function PieceLength(total: nat, limit: nat): nat
    requires 0 < limit < total
  {
    var n := PieceCount(total, limit);
    CountAtLeastTwo(total, limit);
    (total + n - 1) / n
  }

  lemma CountAtLeastTwo(total: nat, limit: nat)
    requires 0 < limit < total
    ensures PieceCount(total, limit) >= 2
  {
    DivBounds(total + limit - 1, limit);
    var n := PieceCount(total, limit);
    assert n * limit >= total;
    assert 1 * limit < n * limit;
    MulCancel(1, n, limit);
  }

  lemma MulCancel(a: nat, b: nat, c: nat)
    requires a * c < b * c
    ensures a < b
  {
    if b <= a {
      MulMono(b, a, c);
    }
  }

  /** The last piece is never empty and never longer than the others, and no piece is longer than
      the limit: for every total length, without a bound on it. */
  lemma PieceBounds(total: nat, limit: nat)
    requires 0 < limit < total
    ensures var n := PieceCount(total, limit);
      var len := PieceLength(total, limit);
      && n >= 2 && 0 < len <= limit
      && Needs(n, len, total)
  {
    var n := PieceCount(total, limit);
    var len := PieceLength(total, limit);
    CountAtLeastTwo(total, limit);
    DivBounds(total + limit - 1, limit);
    DivBounds(total + n - 1, n);
    assert total <= n * limit;
    assert (n - 1) * limit == n * limit - limit;
    assert (n - 1) * limit < total;
    assert len * n == n * len;
    assert (limit + 1) * n == n * limit + n;
    MulCancel(len, limit + 1, n);
    assert (n - 1) * len == len * (n - 1) && (n - 1) * limit == limit * (n - 1);
    MulMono(len, limit, n - 1);
  }

  /** Consecutive pieces of `len` from a position in old and new data, the last one shorter. */
  function PiecesFrom(oldPos: nat, newPos: nat, total: nat, len: nat): seq<Cover>
    requires 0 < len
    decreases total
  {
    if total <= len then [Cover(oldPos, newPos, total)]
    else [Cover(oldPos, newPos, len)] + PiecesFrom(oldPos + len, newPos + len, total - len, len)
  }

  function Pieces(c: Cover, limit: nat): (ps: seq<Cover>)
    requires 0 < limit
    ensures |ps| >= 1
  {
    if c.length <= limit then [c]
    else
      PieceBounds(c.length, limit);
      PiecesFrom(c.oldPos, c.newPos, c.length, PieceLength(c.length, limit))
  }

  /** Positive pieces of at most `max` follow each other in old and new data and fill exactly the
      range of length `total`. */
  predicate Tiles(ps: seq<Cover>, oldPos: nat, newPos: nat, total: nat, max: nat) {
    if ps == [] then total == 0
    else
      && ps[0].oldPos == oldPos && ps[0].newPos == newPos
      && 0 < ps[0].length <= max && ps[0].length <= total
      && Tiles(ps[1..], oldPos + ps[0].length, newPos + ps[0].length, total - ps[0].length, max)
  }

  lemma {:induction false} PiecesFromTile(oldPos: nat, newPos: nat, total: nat, len: nat, max: nat)
    requires 0 < len <= max && 0 < total
    ensures Tiles(PiecesFrom(oldPos, newPos, total, len), oldPos, newPos, total, max)
    decreases total
  {
    var ps := PiecesFrom(oldPos, newPos, total, len);
    if total <= len {
      assert ps[1..] == [];
    } else {
      PiecesFromTile(oldPos + len, newPos + len, total - len, len, max);
      assert ps[1..] == PiecesFrom(oldPos + len, newPos + len, total - len, len);
    }
  }

  /** The pieces of a cover tile it exactly, whatever its length. */
  lemma {:induction false} PiecesTile(c: Cover, limit: nat)
    requires 0 < limit && 0 < c.length
    ensures Tiles(Pieces(c, limit), c.oldPos, c.newPos, c.length, limit)
  {
    if c.length <= limit {
      assert [c][1..] == [];
    } else {
      PieceBounds(c.length, limit);
      PiecesFromTile(c.oldPos, c.newPos, c.length, PieceLength(c.length, limit), limit);
    }
  }

  // --- all covers ----------------------------------------------------------------------------------

  function Flat(cs: seq<Cover>, limit: nat): seq<Cover>
    requires 0 < limit
  {
    if cs == [] then [] else Pieces(cs[0], limit) + Flat(cs[1..], limit)
  }

  lemma {:induction false} TilesOrdered(ps: seq<Cover>, oldPos: nat, newPos: nat, total: nat, max: nat,
                                        rest: seq<Cover>, end: nat)
    requires Tiles(ps, oldPos, newPos, total, max) && Ordered(rest, newPos + total, end)
    ensures Ordered(ps + rest, newPos, end)
  {
    if ps == [] {
      assert ps + rest == rest;
    } else {
      assert (ps + rest)[1..] == ps[1..] + rest;
      TilesOrdered(ps[1..], oldPos + ps[0].length, newPos + ps[0].length, total - ps[0].length, max, rest, end);
    }
  }

  lemma {:induction false} TilesMatch(ps: seq<Cover>, c: Cover, total: nat, max: nat, oldData: seq<byte>, newData: seq<byte>)
    requires total <= c.length && Matching(c, oldData, newData)
    requires Tiles(ps, c.OldEnd() - total, c.NewEnd() - total, total, max)
    ensures forall i :: 0 <= i < |ps| ==> Matching(ps[i], oldData, newData) && 0 < ps[i].length <= max
  {
    if ps != [] {
      var p := ps[0];
      TilesMatch(ps[1..], c, total - p.length, max, oldData, newData);
      SubMatch(c, c.length - total, p, oldData, newData);
      forall i | 0 <= i < |ps| ensures Matching(ps[i], oldData, newData) && 0 < ps[i].length <= max {
        assert i > 0 ==> ps[i] == ps[1..][i - 1];
      }
    }
  }

  lemma SubMatch(c: Cover, offset: nat, p: Cover, oldData: seq<byte>, newData: seq<byte>)
    requires Matching(c, oldData, newData) && offset + p.length <= c.length
    requires p.oldPos == c.oldPos + offset && p.newPos == c.newPos + offset
    ensures Matching(p, oldData, newData)
  {
    SliceOfSlice(newData, c.newPos, c.NewEnd(), offset, offset + p.length);
    SliceOfSlice(oldData, c.oldPos, c.OldEnd(), offset, offset + p.length);
  }

  /** Clipping keeps covers sorted, disjoint and matching, and makes all of them short. */
  lemma {:induction false} FlatIsGood(cs: seq<Cover>, limit: nat, pos: nat, end: nat, oldData: seq<byte>, newData: seq<byte>)
    requires 0 < limit && Ordered(cs, pos, end) && AllMatching(cs, oldData, newData)
    ensures var r := Flat(cs, limit);
      && Ordered(r, pos, end)
      && AllMatching(r, oldData, newData)
      && forall i :: 0 <= i < |r| ==> r[i].length <= limit
  {
    if cs != [] {
      var c := cs[0];
      var ps, rest := Pieces(c, limit), Flat(cs[1..], limit);
      assert forall i :: 0 <= i < |cs[1..]| ==> cs[1..][i] == cs[i + 1];
      FlatIsGood(cs[1..], limit, c.NewEnd(), end, oldData, newData);
      PiecesTile(c, limit);
      TilesOrdered(ps, c.oldPos, c.newPos, c.length, limit, rest, end);
      TilesMatch(ps, c, c.length, limit, oldData, newData);
      OrderedEarlier(ps + rest, pos, c.newPos, end);
    }
  }

  lemma OrderedEarlier(cs: seq<Cover>, pos: nat, from: nat, end: nat)
    requires pos <= from && Ordered(cs, from, end)
    ensures Ordered(cs, pos, end)
  {
  }

  // --- first pieces, other pieces, and the merge -------------------------------------------------------

  function Heads(cs: seq<Cover>, limit: nat): (r: seq<Cover>)
    requires 0 < limit
    ensures |r| == |cs|
  {
    if cs == [] then [] else [Pieces(cs[0], limit)[0]] + Heads(cs[1..], limit)
  }

  function Tails(cs: seq<Cover>, limit: nat): seq<Cover>
    requires 0 < limit
  {
    if cs == [] then [] else Pieces(cs[0], limit)[1..] + Tails(cs[1..], limit)
  }

  /** `std::inplace_merge` by new position: stable, so a tie is taken from the first range. */
  function Merge(a: seq<Cover>, b: seq<Cover>): seq<Cover> {
    if a == [] then b
    else if b == [] then a
    else if b[0].newPos < a[0].newPos then [b[0]] + Merge(a, b[1..])
    else [a[0]] + Merge(a[1..], b)
  }

  /** An element of the second range that is before the first range comes first. */
  lemma {:induction false} MergeTake(x: Cover, a: seq<Cover>, b: seq<Cover>)
    requires a != [] ==> x.newPos < a[0].newPos
    ensures Merge(a, [x] + b) == [x] + Merge(a, b)
  {
    assert ([x] + b)[1..] == b;
    if b == [] && a != [] {
      assert Merge(a, b) == a;
    }
  }

  lemma {:induction false} MergeBefore(t: seq<Cover>, a: seq<Cover>, b: seq<Cover>)
    requires forall i :: 0 <= i < |t| && a != [] ==> t[i].newPos < a[0].newPos
    ensures Merge(a, t + b) == t + Merge(a, b)
  {
    hide Merge;
    if t == [] {
      assert t + b == b && t + Merge(a, b) == Merge(a, b);
    } else {
      var x, u := t[0], t[1..];
      assert t == [x] + u;
      forall i | 0 <= i < |u| && a != [] ensures u[i].newPos < a[0].newPos {
        assert u[i] == t[i + 1];
      }
      MergeBefore(u, a, b);
      MergeTake(x, a, u + b);
      Regroup([x], u, b);
      Regroup([x], u, Merge(a, b));
    }
  }

  lemma {:induction false} TilesBounds(ps: seq<Cover>, oldPos: nat, newPos: nat, total: nat, max: nat)
    requires Tiles(ps, oldPos, newPos, total, max)
    ensures forall i :: 0 <= i < |ps| ==> newPos <= ps[i].newPos < newPos + total
  {
    if ps != [] {
      TilesBounds(ps[1..], oldPos + ps[0].length, newPos + ps[0].length, total - ps[0].length, max);
      forall i | 0 <= i < |ps| ensures newPos <= ps[i].newPos < newPos + total {
        assert i > 0 ==> ps[i] == ps[1..][i - 1];
      }
    }
  }

  lemma {:induction false} TailsBehind(cs: seq<Cover>, limit: nat, pos: nat, end: nat)
    requires 0 < limit && Ordered(cs, pos, end)
    ensures Tails(cs, limit) != [] ==> pos <= Tails(cs, limit)[0].newPos
  {
    if cs != [] {
      var c := cs[0];
      PiecesTile(c, limit);
      TilesBounds(Pieces(c, limit), c.oldPos, c.newPos, c.length, limit);
      TailsBehind(cs[1..], limit, c.NewEnd(), end);
      if |Pieces(c, limit)| > 1 {
        assert Tails(cs, limit)[0] == Pieces(c, limit)[1];
      } else {
        assert Tails(cs, limit) == Tails(cs[1..], limit);
      }
    }
  }

  /** A first element that is not behind either range stays first. */
  lemma {:induction false} MergeFirst(h: Cover, a: seq<Cover>, b: seq<Cover>)
    requires b != [] ==> h.newPos <= b[0].newPos
    ensures Merge([h] + a, b) == [h] + Merge(a, b)
  {
    assert ([h] + a)[1..] == a;
    if b == [] {
      MergeNothing(a);
    }
  }

  lemma {:induction false} MergeStep(h: Cover, t: seq<Cover>, heads: seq<Cover>, tails: seq<Cover>)
    requires forall i :: 0 <= i < |t| && heads != [] ==> t[i].newPos < heads[0].newPos
    requires t + tails != [] ==> h.newPos <= (t + tails)[0].newPos
    ensures Merge([h] + heads, t + tails) == [h] + t + Merge(heads, tails)
  {
    MergeBefore(t, heads, tails);
    MergeFirst(h, heads, t + tails);
    assert [h] + (t + Merge(heads, tails)) == [h] + t + Merge(heads, tails);
  }

  /** Merging the first pieces with the others gives all pieces in order. */
  lemma {:induction false} MergeIsFlat(cs: seq<Cover>, limit: nat, pos: nat, end: nat)
    requires 0 < limit && Ordered(cs, pos, end)
    ensures Merge(Heads(cs, limit), Tails(cs, limit)) == Flat(cs, limit)
  {
    if cs != [] {
      var ps := Pieces(cs[0], limit);
      MergeIsFlat(cs[1..], limit, cs[0].NewEnd(), end);
      PiecesBetween(cs, limit, pos, end);
      MergeStep(ps[0], ps[1..], Heads(cs[1..], limit), Tails(cs[1..], limit));
      assert ps == [ps[0]] + ps[1..];
    }
  }

  /** The pieces of the first cover lie between its start and everything behind it. */
  lemma {:induction false} PiecesBetween(cs: seq<Cover>, limit: nat, pos: nat, end: nat)
    requires 0 < limit && Ordered(cs, pos, end) && cs != []
    ensures var ps := Pieces(cs[0], limit);
      var heads, tails := Heads(cs[1..], limit), Tails(cs[1..], limit);
      && (forall i :: 0 <= i < |ps[1..]| && heads != [] ==> ps[1..][i].newPos < heads[0].newPos)
      && (ps[1..] + tails != [] ==> ps[0].newPos <= (ps[1..] + tails)[0].newPos)
  {
    var c := cs[0];
    var ps := Pieces(c, limit);
    PiecesTile(c, limit);
    TilesBounds(ps, c.oldPos, c.newPos, c.length, limit);
    TailsBehind(cs[1..], limit, c.NewEnd(), end);
    if |cs| > 1 {
      PiecesTile(cs[1], limit);
      assert Heads(cs[1..], limit)[0] == Pieces(cs[1], limit)[0];
    }
  }

  lemma MergeNothing(a: seq<Cover>)
    ensures Merge(a, []) == a
  {
  }

  // --- the loop of the source ----------------------------------------------------------------------------

  lemma {:induction false} HeadsAt(cs: seq<Cover>, limit: nat, i: nat)
    requires 0 < limit && i < |cs|
    ensures Heads(cs, limit)[i] == Pieces(cs[i], limit)[0]
  {
    if i > 0 {
      HeadsAt(cs[1..], limit, i - 1);
    }
  }

  lemma {:induction false} TailsSnoc(cs: seq<Cover>, c: Cover, limit: nat)
    requires 0 < limit
    ensures Tails(cs + [c], limit) == Tails(cs, limit) + Pieces(c, limit)[1..]
  {
    if cs == [] {
      assert [c][1..] == [];
      assert cs + [c] == [c];
    } else {
      assert (cs + [c])[1..] == cs[1..] + [c];
      TailsSnoc(cs[1..], c, limit);
    }
  }

  /** `total` needs exactly `count` pieces of `len`. */
  ghost predicate Needs(count: nat, len: nat, total: nat) {
    count > 0 && (count - 1) * len < total <= count * len
  }

  lemma PiecesLeft(count: nat, len: nat, total: nat)
    requires Needs(count, len, total)
    ensures total > len <==> count > 1
    ensures count > 1 ==> Needs(count - 1, len, total - len)
  {
    if count > 1 {
      MulMono(1, count - 1, len);
      assert (count - 2) * len == (count - 1) * len - len && (count - 1) * len == count * len - len;
    }
  }

  /** Behind `nc`, of the `allLen` bytes from its position on, `count` pieces are still to be pushed
      back to `r` to make it `tail`. */
  ghost predicate Pending(r: seq<Cover>, nc: Cover, allLen: nat, count: nat, len: nat, tail: seq<Cover>) {
    && 0 < len < allLen && Needs(count, len, allLen - len)
    && r + PiecesFrom(nc.oldPos + len, nc.newPos + len, allLen - len, len) == tail
  }

  lemma {:induction false} FirstPiece(c: Cover, limit: nat, list: seq<Cover>)
    requires 0 < limit < c.length
    ensures var n, len := PieceCount(c.length, limit), PieceLength(c.length, limit);
      && n >= 2 && Pieces(c, limit)[0] == c.(length := len)
      && Pending(list, c, c.length, n - 1, len, list + Pieces(c, limit)[1..])
  {
    hide PieceCount, PieceLength;
    PieceBounds(c.length, limit);
    PiecesLeft(PieceCount(c.length, limit), PieceLength(c.length, limit), c.length);
  }

  lemma {:induction false} PushPiece(r: seq<Cover>, nc: Cover, allLen: nat, count: nat, len: nat, tail: seq<Cover>)
    requires Pending(r, nc, allLen, count, len, tail)
    ensures var left := allLen - len;
      var next := Cover(nc.oldPos + len, nc.newPos + len, if count > 1 then len else left);
      && (count > 1 ==> Pending(r + [next], next, left, count - 1, len, tail))
      && (count == 1 ==> r + [next] == tail)
  {
    hide Needs;
    var left := allLen - len;
    var next := Cover(nc.oldPos + len, nc.newPos + len, if count > 1 then len else left);
    PiecesLeft(count, len, left);
    if count > 1 {
      Regroup(r, [next], PiecesFrom(next.oldPos + len, next.newPos + len, left - len, len));
    }
  }

  /** The pieces behind the first one, pushed back one by one. */
  method PushTail(c: Cover, limit: nat, list: seq<Cover>) returns (first: Cover, r: seq<Cover>)
    requires 0 < limit < c.length
    ensures first == Pieces(c, limit)[0]
    ensures r == list + Pieces(c, limit)[1..]
  {
    var allLen := c.length;
    var clip := PieceCount(allLen, limit);
    var clipLen := PieceLength(allLen, limit);
    PieceBounds(allLen, limit);
    var nc := c;
    first := c.(length := clipLen);
    r := list;
    ghost var tail := list + Pieces(c, limit)[1..];
    FirstPiece(c, limit, list);
    hide Needs, PiecesFrom, Pieces, PieceCount, PieceLength;
    var j := 1;
    while j < clip
      invariant 1 <= j <= clip
      invariant j < clip ==> Pending(r, nc, allLen, clip - j, clipLen, tail)
      invariant j == clip ==> r == tail
    {
      PushPiece(r, nc, allLen, clip - j, clipLen, tail);
      nc := nc.(oldPos := nc.oldPos + clipLen, newPos := nc.newPos + clipLen);
      allLen := allLen - clipLen;
      nc := nc.(length := if j + 1 < clip then clipLen else allLen);
      r := r + [nc];
      j := j + 1;
    }
  }

  /** What the vector holds when `i` covers are cut. */
  ghost predicate CutUpTo(covers: seq<Cover>, input: seq<Cover>, i: nat, limit: nat)
    requires 0 < limit && i <= |input|
  {
    && |covers| >= |input|
    && (forall k :: 0 <= k < i ==> covers[k] == Heads(input, limit)[k])
    && (forall k :: i <= k < |input| ==> covers[k] == input[k])
    && covers[|input|..] == Tails(input[..i], limit)
  }

  lemma {:induction false} CutNext(covers: seq<Cover>, input: seq<Cover>, i: nat, limit: nat, c1: seq<Cover>)
    requires 0 < limit && i < |input| && CutUpTo(covers, input, i, limit)
    requires |c1| >= |covers| && c1[i] == Pieces(input[i], limit)[0]
    requires forall k :: 0 <= k < |input| && k != i ==> c1[k] == covers[k]
    requires c1[|input|..] == covers[|input|..] + Pieces(input[i], limit)[1..]
    ensures CutUpTo(c1, input, i + 1, limit)
  {
    hide Pieces, Heads, Tails;
    HeadsAt(input, limit, i);
    TailsSnoc(input[..i], input[i], limit);
    assert input[..i] + [input[i]] == input[..i + 1];
  }

  lemma {:induction false} CutAll(covers: seq<Cover>, input: seq<Cover>, limit: nat)
    requires 0 < limit && CutUpTo(covers, input, |input|, limit)
    ensures covers[..|input|] == Heads(input, limit) && covers[|input|..] == Tails(input, limit)
  {
    assert input[..|input|] == input;
  }

  lemma SetOne(covers: seq<Cover>, longer: seq<Cover>, tail: seq<Cover>, n: nat, i: nat, first: Cover)
    requires i < n <= |covers| && longer == covers + tail
    ensures longer[i := first][n..] == covers[n..] + tail
  {
  }

  /** `covers` is the vector of the source, rewritten and extended in place. */
  method Clip(input: seq<Cover>, limit: nat, ghost pos: nat, ghost end: nat) returns (covers: seq<Cover>)
    requires 0 < limit && Ordered(input, pos, end)
    ensures covers == Flat(input, limit)
  {
    hide Heads, Tails, Merge, Flat, Ordered;
    covers := input;
    var cCount := |covers|;
    var i := 0;
    NothingCut(input, limit);
    while i < cCount
      invariant 0 <= i <= cCount == |input| <= |covers|
      invariant CutUpTo(covers, input, i, limit)
    {
      var c := covers[i];
      ghost var before := covers;
      if c.length > limit {
        var first, longer := PushTail(c, limit, covers);
        SetOne(covers, longer, Pieces(c, limit)[1..], cCount, i, first);
        covers := longer[i := first];
      } else {
        assert covers[cCount..] + [] == covers[cCount..];
      }
      CutNext(before, input, i, limit, covers);
      i := i + 1;
    }
    CutAll(covers, input, limit);
    MergeIsFlat(input, limit, pos, end);
    if |covers| > cCount {
      covers := Merge(covers[..cCount], covers[cCount..]);
    } else {
      assert covers[cCount..] == [] && covers[..cCount] == covers;
      MergeNothing(Heads(input, limit));
    }
  }

  lemma {:induction false} NothingCut(input: seq<Cover>, limit: nat)
    requires 0 < limit
    ensures CutUpTo(input, input, 0, limit)
  {
    assert input[|input|..] == [] && input[..0] == [];
  }
}
