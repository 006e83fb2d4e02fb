/**
 What ignore patterns mean in terms of the names in a path: the parts between separators.
 */
module IgnoreNames {
  import opened Bytes
  import opened IgnoreMatch

  /** The next separator from `i` on, or the end. */
  function NameEnd(s: seq<char>, i: nat): (e: nat)
    requires i <= |s|
    ensures i <= e <= |s| && (e < |s| ==> s[e] == SEPARATOR) && forall k :: i <= k < e ==> s[k] != SEPARATOR
    decreases |s| - i
  {
    if i == |s| || s[i] == SEPARATOR then i else NameEnd(s, i + 1)
  }

  /** The names of a path from `i` on, also empty ones, from left to right. */
  function NamesFrom(s: seq<char>, i: nat): (names: seq<seq<char>>)
    requires i <= |s|
    ensures names != []
    decreases |s| - i
  {
    var e := NameEnd(s, i);
    [s[i..e]] + if e == |s| then [] else NamesFrom(s, e + 1)
  }

  function Names(s: seq<char>): seq<seq<char>> {
    NamesFrom(s, 0)
  }

  /** A name stands from `a` to `b`. */
  ghost predicate IsName(s: seq<char>, a: nat, b: nat) {
    && a <= b <= |s| && (forall k :: a <= k < b ==> s[k] != SEPARATOR)
    && (a == 0 || s[a - 1] == SEPARATOR) && (b == |s| || s[b] == SEPARATOR)
  }

  predicate Begins(s: seq<char>, i: nat)
    requires i <= |s|
  {
    i == 0 || s[i - 1] == SEPARATOR
  }

  /** Name `i` of the list from `from` on stands from `a` to `b`. */
  predicate StandsAt(s: seq<char>, from: nat, i: nat, a: nat, b: nat)
    requires from <= |s|
  {
    var names := NamesFrom(s, from);
    && from <= a <= b <= |s| && i < |names| && s[a..b] == names[i]
    && (a == from <==> i == 0) && (b == |s| <==> i == |names| - 1)
  }

  lemma {:induction false} FirstStands(s: seq<char>, from: nat)
    requires from <= |s|
    ensures StandsAt(s, from, 0, from, NameEnd(s, from))
  {
    NamesStep(s, from);
  }

  lemma {:induction false} LaterStands(s: seq<char>, from: nat, j: nat, a: nat, b: nat)
    requires from <= |s| && NameEnd(s, from) < |s| && StandsAt(s, NameEnd(s, from) + 1, j, a, b)
    ensures StandsAt(s, from, j + 1, a, b)
  {
    NameLater(s, from, j);
  }

  /** Where a name of the list stands. */
  lemma {:induction false} PlaceFrom(s: seq<char>, from: nat, i: nat) returns (a: nat, b: nat)
    requires from <= |s| && Begins(s, from) && i < |NamesFrom(s, from)|
    ensures IsName(s, a, b) && StandsAt(s, from, i, a, b)
    decreases |s| - from
  {
    NamesStep(s, from);
    if i == 0 {
      FirstStands(s, from);
      hide StandsAt, NamesFrom, NameEnd;
      a, b := from, NameEnd(s, from);
    } else {
      hide *;
      a, b := PlaceFrom(s, NameEnd(s, from) + 1, i - 1);
      LaterStands(s, from, i - 1, a, b);
    }
  }

  /** The name of the list that stands at a place. */
  lemma {:induction false} NameFrom(s: seq<char>, from: nat, a: nat, b: nat) returns (i: nat)
    requires from <= a && IsName(s, a, b) && Begins(s, from)
    ensures StandsAt(s, from, i, a, b)
    decreases |s| - from
  {
    FirstName(s, from, a, b);
    NamesStep(s, from);
    hide *;
    if a == from {
      i := 0;
      FirstStands(s, from);
    } else {
      var j := NameFrom(s, NameEnd(s, from) + 1, a, b);
      LaterStands(s, from, j, a, b);
      i := j + 1;
    }
  }

  lemma {:induction false} NameLater(s: seq<char>, from: nat, j: nat)
    requires from <= |s| && NameEnd(s, from) < |s| && j < |NamesFrom(s, NameEnd(s, from) + 1)|
    ensures |NamesFrom(s, from)| == 1 + |NamesFrom(s, NameEnd(s, from) + 1)|
    ensures NamesFrom(s, from)[j + 1] == NamesFrom(s, NameEnd(s, from) + 1)[j]
  {
  }

  lemma {:induction false} NamesStep(s: seq<char>, from: nat)
    requires from <= |s|
    ensures var e, names := NameEnd(s, from), NamesFrom(s, from);
      && names[0] == s[from..e] && (e == |s| ==> |names| == 1)
      && (e < |s| ==> |names| == 1 + |NamesFrom(s, e + 1)| && Begins(s, e + 1))
  {
  }

  /** The first name ends at the first separator, and all others begin behind that. */
  lemma FirstName(s: seq<char>, from: nat, a: nat, b: nat)
    requires from <= a && IsName(s, a, b)
    ensures var e := NameEnd(s, from);
      a <= b <= |s| && (a == from ==> b == e) && (a > from ==> e < a && e < |s|)
  {
  }

  /** The name around a stretch without separator. */
  lemma {:induction false} NameAround(s: seq<char>, p: nat, q: nat) returns (a: nat, b: nat)
    requires p <= q <= |s| && forall k :: p <= k < q ==> s[k] != SEPARATOR
    ensures IsName(s, a, b) && a <= p && q <= b
    ensures (p == 0 || s[p - 1] == SEPARATOR ==> a == p) && (q == |s| || s[q] == SEPARATOR ==> b == q)
  {
    b := NameEnd(s, q);
    a := p;
    while a > 0 && s[a - 1] != SEPARATOR
      invariant 0 <= a <= p && (p == 0 || s[p - 1] == SEPARATOR ==> a == p)
      invariant forall k :: a <= k < q ==> s[k] != SEPARATOR
    {
      a := a - 1;
    }
  }

  /** Text without separator and wildcard. */
  predicate Plain(t: seq<char>) {
    t != [] && SEPARATOR !in t && MAGIC !in t
  }

  lemma PlainInside(s: seq<char>, t: seq<char>, p: nat)
    requires Plain(t) && OccursAt(s, t, p)
    ensures forall k :: p <= k < p + |t| ==> s[k] != SEPARATOR
  {
    forall k | p <= k < p + |t| ensures s[k] != SEPARATOR {
      assert s[k] == s[p..p + |t|][k - p] == t[k - p];
    }
  }

  // --- patterns of one part ------------------------------------------------------------------------------

  lemma {:induction false} ClipIs(ignore: seq<char>, i: nat, c: nat)
    requires i <= c <= |ignore| && MAGIC !in ignore[i..c] && (c < |ignore| ==> ignore[c] == MAGIC)
    ensures Clip(ignore, i) == c
    decreases c - i
  {
    if i < c {
      assert ignore[i..c][0] == ignore[i];
      assert ignore[i..c][1..] == ignore[i + 1..c];
      ClipIs(ignore, i + 1, c);
    }
  }

  /** A pattern of one part, with a wildcard in front or behind or without. */
  lemma {:induction false} OnePart(front: bool, t: seq<char>, back: bool)
    requires t != [] && MAGIC !in t
    ensures var ignore := (if front then [MAGIC] else []) + t + if back then [MAGIC] else [];
      Segments(ignore, 0) == [Segment(t, !front, !back)]
  {
    hide Segments, Clip;
    var ignore := (if front then [MAGIC] else []) + t + if back then [MAGIC] else [];
    var at := if front then 1 else 0;
    var end := at + |t|;
    assert ignore[at..end] == t;
    ClipIs(ignore, at, end);
    SegmentsStep(ignore, at);
    NothingBehind(ignore, end + 1);
    if front {
      assert ignore[0..0] == [];
      ClipIs(ignore, 0, 0);
      SegmentsStep(ignore, 0);
    }
  }

  lemma {:induction false} NothingBehind(ignore: seq<char>, i: nat)
    requires i >= |ignore|
    ensures Segments(ignore, i) == []
  {
  }

  /** A place that the rules allow for a part alone. */
  ghost predicate GoodPlace(s: seq<char>, seg: Segment, p: nat)
    requires seg.text != []
  {
    OccursAt(s, seg.text, p) && FrontRule(s, p, seg) && BackRule(s, p + |seg.text|, seg)
  }

  /** A pattern of one part matches exactly when the part has such a place. */
  lemma {:induction false} OnePlace(s: seq<char>, ignore: seq<char>, seg: Segment)
    requires seg.text != [] && Segments(ignore, 0) == [seg]
    ensures Ignores(s, ignore) <==> exists p: nat :: GoodPlace(s, seg, p)
  {
    hide Segments, FrontRule, BackRule, OccursAt;
    if Ignores(s, ignore) {
      var ps: seq<nat> :| Matches(s, [seg], ps);
      assert OccursAt(s, [seg][0].text, ps[0]);
      assert GoodPlace(s, seg, ps[0]);
    }
    forall p: nat | GoodPlace(s, seg, p) ensures Ignores(s, ignore) {
      assert Matches(s, [seg], [p]);
    }
  }

  /** What the rules say of a place. */
  lemma PlaceIff(s: seq<char>, seg: Segment, p: nat)
    requires seg.text != []
    ensures GoodPlace(s, seg, p)
       <==> && OccursAt(s, seg.text, p) && p + |seg.text| <= |s|
            && (seg.atBegin && seg.text[0] != SEPARATOR ==> p == 0 || s[p - 1] == SEPARATOR)
            && (seg.atEnd && seg.text[|seg.text| - 1] != SEPARATOR ==>
                  p + |seg.text| == |s| || s[p + |seg.text|] == SEPARATOR)
  {
  }

  lemma PlainEnds(t: seq<char>)
    requires Plain(t)
    ensures t[0] != SEPARATOR && t[|t| - 1] != SEPARATOR
  {
    assert t[0] in t && t[|t| - 1] in t;
  }

  lemma PartsOfName(name: seq<char>, a: seq<char>, b: seq<char>)
    ensures OccursAt(name, a, 0) <==> a <= name
    ensures |b| <= |name| ==> (OccursAt(name, b, |name| - |b|) <==> EndsWith(name, b))
  {
  }

  predicate EndsWith(name: seq<char>, t: seq<char>) {
    |t| <= |name| && name[|name| - |t|..] == t
  }

  /** A place in a name, seen from the name. */
  lemma PartInName(s: seq<char>, t: seq<char>, a: nat, b: nat, q: nat)
    requires a <= b <= |s| && q + |t| <= b - a
    ensures OccursAt(s[a..b], t, q) <==> OccursAt(s, t, a + q)
  {
    SliceOfSlice(s, a, b, q, q + |t|);
  }

  /** The name `i` that a part stands in, and where it stands in the name. */
  lemma {:induction false} NameOfPart(s: seq<char>, t: seq<char>, p: nat) returns (i: nat, q: nat)
    requires Plain(t) && OccursAt(s, t, p)
    ensures i < |Names(s)| && OccursAt(Names(s)[i], t, q) && q + |t| <= |Names(s)[i]| && p + |t| <= |s|
    ensures p == 0 || s[p - 1] == SEPARATOR ==> q == 0 && (i == 0 <==> p == 0)
    ensures p + |t| == |s| || s[p + |t|] == SEPARATOR ==>
              q + |t| == |Names(s)[i]| && (i == |Names(s)| - 1 <==> p + |t| == |s|)
  {
    PlainInside(s, t, p);
    assert p + |t| <= |s|;
    hide *;
    var a, b := NameAround(s, p, p + |t|);
    i := NameAt(s, a, b);
    q := p - a;
    PartInName(s, t, a, b, q);
  }

  /** Where a part of the name `i` stands in the path. */
  lemma {:induction false} PlaceOfPart(s: seq<char>, t: seq<char>, i: nat, q: nat) returns (p: nat)
    requires i < |Names(s)| && OccursAt(Names(s)[i], t, q)
    ensures OccursAt(s, t, p) && p + |t| <= |s|
    ensures q == 0 ==> (p == 0 || s[p - 1] == SEPARATOR) && (i == 0 <==> p == 0)
    ensures q + |t| == |Names(s)[i]| ==>
              (p + |t| == |s| || s[p + |t|] == SEPARATOR) && (i == |Names(s)| - 1 <==> p + |t| == |s|)
  {
    hide NamesFrom, NameEnd, OccursAt;
    var a, b := PlaceFrom(s, 0, i);
    p := a + q;
    Inside(Names(s)[i], t, q);
    PartInName(s, t, a, b, q);
  }

  lemma Inside(s: seq<char>, t: seq<char>, p: nat)
    requires OccursAt(s, t, p)
    ensures p + |t| <= |s|
  {
  }

  /** A pattern without wildcard and separator matches exactly the paths in which it is one of the
      names. */
  lemma {:induction false} PlainPattern(s: seq<char>, t: seq<char>)
    requires Plain(t)
    ensures Ignores(s, t) <==> t in Names(s)
  {
    hide Segments, Names, IsName, Ignores, OccursAt, GoodPlace, FrontRule, BackRule;
    PlainEnds(t);
    var seg := Segment(t, true, true);
    OnePart(false, t, false);
    assert [] + t + [] == t;
    OnePlace(s, t, seg);
    if Ignores(s, t) {
      var p: nat :| GoodPlace(s, seg, p);
      PlaceIff(s, seg, p);
      var i, q := NameOfPart(s, t, p);
      WholeName(Names(s)[i], t, q);
    }
    if t in Names(s) {
      var i :| 0 <= i < |Names(s)| && Names(s)[i] == t;
      WholeName(t, t, 0);
      var p := PlaceOfPart(s, t, i, 0);
      PlaceIff(s, seg, p);
      assert GoodPlace(s, seg, p);
    }
  }

  /** With a wildcard behind: some name begins with it. */
  lemma {:induction false} FrontPattern(s: seq<char>, t: seq<char>)
    requires Plain(t)
    ensures Ignores(s, t + [MAGIC]) <==> exists i :: 0 <= i < |Names(s)| && t <= Names(s)[i]
  {
    hide Segments, Names, IsName, Ignores, OccursAt, GoodPlace, FrontRule, BackRule;
    PlainEnds(t);
    var seg := Segment(t, true, false);
    OnePart(false, t, true);
    assert [] + t + [MAGIC] == t + [MAGIC];
    OnePlace(s, t + [MAGIC], seg);
    if Ignores(s, t + [MAGIC]) {
      var p: nat :| GoodPlace(s, seg, p);
      PlaceIff(s, seg, p);
      var i, q := NameOfPart(s, t, p);
      PartsOfName(Names(s)[i], t, t);
    }
    if i :| 0 <= i < |Names(s)| && t <= Names(s)[i] {
      PartsOfName(Names(s)[i], t, t);
      var p := PlaceOfPart(s, t, i, 0);
      PlaceIff(s, seg, p);
      assert GoodPlace(s, seg, p);
    }
  }

  /** With a wildcard in front: some name ends with it. */
  lemma {:induction false} BackPattern(s: seq<char>, t: seq<char>)
    requires Plain(t)
    ensures Ignores(s, [MAGIC] + t) <==> exists i :: 0 <= i < |Names(s)| && EndsWith(Names(s)[i], t)
  {
    hide Segments, Names, IsName, Ignores, OccursAt, GoodPlace, FrontRule, BackRule;
    PlainEnds(t);
    var seg := Segment(t, false, true);
    OnePart(true, t, false);
    assert [MAGIC] + t + [] == [MAGIC] + t;
    OnePlace(s, [MAGIC] + t, seg);
    if Ignores(s, [MAGIC] + t) {
      var p: nat :| GoodPlace(s, seg, p);
      PlaceIff(s, seg, p);
      var i, q := NameOfPart(s, t, p);
      assert q == |Names(s)[i]| - |t|;
      PartsOfName(Names(s)[i], t, t);
    }
    if i :| 0 <= i < |Names(s)| && EndsWith(Names(s)[i], t) {
      PartsOfName(Names(s)[i], t, t);
      var p := PlaceOfPart(s, t, i, |Names(s)[i]| - |t|);
      PlaceIff(s, seg, p);
      assert GoodPlace(s, seg, p);
    }
  }

  ghost predicate Holds(name: seq<char>, t: seq<char>) {
    exists q: nat :: OccursAt(name, t, q)
  }

  /** With wildcards on both sides: some name holds it. */
  lemma {:induction false} MiddlePattern(s: seq<char>, t: seq<char>)
    requires Plain(t)
    ensures Ignores(s, [MAGIC] + t + [MAGIC]) <==> exists i :: 0 <= i < |Names(s)| && Holds(Names(s)[i], t)
  {
    hide Segments, Names, IsName, Ignores, OccursAt, GoodPlace, FrontRule, BackRule;
    PlainEnds(t);
    var seg := Segment(t, false, false);
    OnePart(true, t, true);
    OnePlace(s, [MAGIC] + t + [MAGIC], seg);
    if Ignores(s, [MAGIC] + t + [MAGIC]) {
      var p: nat :| GoodPlace(s, seg, p);
      PlaceIff(s, seg, p);
      var i, q := NameOfPart(s, t, p);
      assert Holds(Names(s)[i], t);
    }
    if i :| 0 <= i < |Names(s)| && Holds(Names(s)[i], t) {
      var q: nat :| OccursAt(Names(s)[i], t, q);
      var p := PlaceOfPart(s, t, i, q);
      PlaceIff(s, seg, p);
      assert GoodPlace(s, seg, p);
    }
  }

  // --- separators at the ends of a pattern ---------------------------------------------------------------

  lemma BehindSeparator(s: seq<char>, t: seq<char>, p: nat)
    ensures OccursAt(s, [SEPARATOR] + t, p) <==> p < |s| && s[p] == SEPARATOR && OccursAt(s, t, p + 1)
  {
    var u := [SEPARATOR] + t;
    if p + |u| <= |s| {
      var w := s[p..p + |u|];
      assert w == [s[p]] + s[p + 1..p + 1 + |t|];
      assert w == u <==> w[0] == u[0] && w[1..] == u[1..];
    }
  }

  lemma BeforeSeparator(s: seq<char>, t: seq<char>, p: nat)
    ensures OccursAt(s, t + [SEPARATOR], p) <==> p + |t| < |s| && s[p + |t|] == SEPARATOR && OccursAt(s, t, p)
  {
    var u := t + [SEPARATOR];
    if p + |u| <= |s| {
      var w := s[p..p + |u|];
      assert w == s[p..p + |t|] + [s[p + |t|]];
      assert w == u <==> w[..|t|] == u[..|t|] && w[|t|] == u[|t|];
    }
  }

  /** A pattern that begins with a separator: it is one of the names, but not the first. */
  lemma {:induction false} RootedPattern(s: seq<char>, t: seq<char>)
    requires Plain(t) && SEPARATOR != MAGIC
    ensures Ignores(s, [SEPARATOR] + t) <==> exists i :: 0 < i < |Names(s)| && Names(s)[i] == t
  {
    hide Segments, Names, IsName, Ignores, OccursAt, GoodPlace, FrontRule, BackRule;
    PlainEnds(t);
    var u := [SEPARATOR] + t;
    var seg := Segment(u, true, true);
    OnePart(false, u, false);
    assert [] + u + [] == u && u[0] == SEPARATOR && u[|u| - 1] == t[|t| - 1];
    OnePlace(s, u, seg);
    if Ignores(s, u) {
      var p: nat :| GoodPlace(s, seg, p);
      PlaceIff(s, seg, p);
      BehindSeparator(s, t, p);
      var i, q := NameOfPart(s, t, p + 1);
      WholeName(Names(s)[i], t, q);
    }
    if i :| 0 < i < |Names(s)| && Names(s)[i] == t {
      WholeName(t, t, 0);
      var p := PlaceOfPart(s, t, i, 0);
      BehindSeparator(s, t, p - 1);
      PlaceIff(s, seg, p - 1);
      assert GoodPlace(s, seg, p - 1);
    }
  }

  /** A pattern that ends with a separator: it is one of the names, but not the last. */
  lemma {:induction false} FolderPattern(s: seq<char>, t: seq<char>)
    requires Plain(t) && SEPARATOR != MAGIC
    ensures Ignores(s, t + [SEPARATOR]) <==> exists i :: 0 <= i < |Names(s)| - 1 && Names(s)[i] == t
  {
    hide Segments, Names, IsName, Ignores, OccursAt, GoodPlace, FrontRule, BackRule;
    PlainEnds(t);
    var u := t + [SEPARATOR];
    var seg := Segment(u, true, true);
    OnePart(false, u, false);
    assert [] + u + [] == u && u[0] == t[0] && u[|u| - 1] == SEPARATOR;
    OnePlace(s, u, seg);
    if Ignores(s, u) {
      var p: nat :| GoodPlace(s, seg, p);
      PlaceIff(s, seg, p);
      BeforeSeparator(s, t, p);
      var i, q := NameOfPart(s, t, p);
      WholeName(Names(s)[i], t, q);
    }
    if i :| 0 <= i < |Names(s)| - 1 && Names(s)[i] == t {
      WholeName(t, t, 0);
      var p := PlaceOfPart(s, t, i, 0);
      BeforeSeparator(s, t, p);
      PlaceIff(s, seg, p);
      assert GoodPlace(s, seg, p);
    }
  }

  lemma WholeName(name: seq<char>, t: seq<char>, q: nat)
    ensures q == 0 && OccursAt(name, t, q) && q + |t| == |name| ==> name == t
    ensures OccursAt(t, t, 0)
  {
  }

  // --- two parts ---------------------------------------------------------------------------------------------

  lemma {:induction false} TwoParts(a: seq<char>, b: seq<char>)
    requires a != [] && b != [] && MAGIC !in a && MAGIC !in b
    ensures Segments(a + [MAGIC] + b, 0) == [Segment(a, true, false), Segment(b, false, true)]
  {
    hide Segments, Clip;
    var ignore := a + [MAGIC] + b;
    assert ignore[0..|a|] == a && ignore[|a| + 1..|ignore|] == b;
    ClipIs(ignore, 0, |a|);
    SegmentsStep(ignore, 0);
    ClipIs(ignore, |a| + 1, |ignore|);
    SegmentsStep(ignore, |a| + 1);
    NothingBehind(ignore, |ignore| + 1);
  }

  /** Places of two parts with a wildcard between them. */
  ghost predicate GoodPlaces(s: seq<char>, a: seq<char>, b: seq<char>, p: nat, q: nat) {
    && OccursAt(s, a, p) && OccursAt(s, b, q) && p + |a| <= q
    && (forall k :: p + |a| <= k < q && k < |s| ==> s[k] != SEPARATOR)
    && (p == 0 || s[p - 1] == SEPARATOR) && (q + |b| == |s| || s[q + |b|] == SEPARATOR)
  }

  lemma {:induction false} TwoPlaces(s: seq<char>, a: seq<char>, b: seq<char>)
    requires Plain(a) && Plain(b)
    ensures Ignores(s, a + [MAGIC] + b) <==> exists p: nat, q: nat :: GoodPlaces(s, a, b, p, q)
  {
    hide Segments, OccursAt;
    TwoParts(a, b);
    var segs := [Segment(a, true, false), Segment(b, false, true)];
    if Ignores(s, a + [MAGIC] + b) {
      var ps: seq<nat> :| Matches(s, segs, ps);
      PlacesFit(s, segs, ps);
      assert GoodPlaces(s, a, b, ps[0], ps[1]);
    }
    forall p: nat, q: nat | GoodPlaces(s, a, b, p, q) ensures Ignores(s, a + [MAGIC] + b) {
      PlaceFits(s, a, p);
      PlaceFits(s, b, q);
      assert Matches(s, segs, [p, q]);
    }
  }

  lemma PlaceFits(s: seq<char>, t: seq<char>, p: nat)
    requires OccursAt(s, t, p)
    ensures p + |t| <= |s|
  {
  }

  lemma PlacesFit(s: seq<char>, segs: seq<Segment>, ps: seq<nat>)
    requires GoodSegments(segs) && |segs| == 2 && Matches(s, segs, ps)
    ensures |ps| == 2 && OccursAt(s, segs[0].text, ps[0]) && OccursAt(s, segs[1].text, ps[1])
    ensures ps[0] + |segs[0].text| <= ps[1] <= ps[1] + |segs[1].text| <= |s|
    ensures NoSeparator(s, ps[0] + |segs[0].text|, ps[1])
  {
    assert OccursAt(s, segs[0].text, ps[0]) && OccursAt(s, segs[1].text, ps[1]);
    assert GapOk(s, segs[0], ps[0], ps[0 + 1]);
  }

  /** Two parts with a wildcard between them: some name begins with the first, ends with the second, and is
      long enough for both. */
  lemma {:induction false} TwoPattern(s: seq<char>, a: seq<char>, b: seq<char>)
    requires Plain(a) && Plain(b)
    ensures Ignores(s, a + [MAGIC] + b)
       <==> exists i :: 0 <= i < |Names(s)| && a <= Names(s)[i] && EndsWith(Names(s)[i], b)
                        && |a| + |b| <= |Names(s)[i]|
  {
    hide Segments, Names, Ignores, GoodPlaces;
    TwoPlaces(s, a, b);
    if p: nat, q: nat :| GoodPlaces(s, a, b, p, q) {
      var i := NameOfTwo(s, a, b, p, q);
    }
    if i :| 0 <= i < |Names(s)| && a <= Names(s)[i] && EndsWith(Names(s)[i], b) && |a| + |b| <= |Names(s)[i]| {
      var p, q := TwoInName(s, a, b, i);
    }
  }

  lemma {:induction false} TwoInName(s: seq<char>, a: seq<char>, b: seq<char>, i: nat) returns (p: nat, q: nat)
    requires i < |Names(s)| && a <= Names(s)[i] && EndsWith(Names(s)[i], b) && |a| + |b| <= |Names(s)[i]|
    ensures GoodPlaces(s, a, b, p, q)
  {
    hide NamesFrom;
    var x, y := PlaceFrom(s, 0, i);
    PartInName(s, a, x, y, 0);
    PartInName(s, b, x, y, y - x - |b|);
    p, q := x, y - |b|;
  }

  lemma {:induction false} NameOfTwo(s: seq<char>, a: seq<char>, b: seq<char>, p: nat, q: nat) returns (i: nat)
    requires Plain(a) && Plain(b) && GoodPlaces(s, a, b, p, q)
    ensures i < |Names(s)| && a <= Names(s)[i] && EndsWith(Names(s)[i], b) && |a| + |b| <= |Names(s)[i]|
  {
    hide *;
    Stretch(s, a, b, p, q);
    var x, y := NameAround(s, p, q + |b|);
    i := NameAt(s, x, y);
    PartInName(s, a, x, y, 0);
    PartInName(s, b, x, y, q - p);
    PartsOfName(Names(s)[i], a, b);
  }

  lemma {:induction false} NameAt(s: seq<char>, a: nat, b: nat) returns (i: nat)
    requires IsName(s, a, b)
    ensures a <= b <= |s| && i < |Names(s)| && Names(s)[i] == s[a..b]
    ensures (a == 0 <==> i == 0) && (b == |s| <==> i == |Names(s)| - 1)
  {
    i := NameFrom(s, 0, a, b);
  }

  lemma Stretch(s: seq<char>, a: seq<char>, b: seq<char>, p: nat, q: nat)
    requires Plain(a) && Plain(b) && GoodPlaces(s, a, b, p, q)
    ensures OccursAt(s, a, p) && OccursAt(s, b, q)
    ensures p + |a| <= q <= q + |b| <= |s| && forall k :: p <= k < q + |b| ==> s[k] != SEPARATOR
    ensures (p == 0 || s[p - 1] == SEPARATOR) && (q + |b| == |s| || s[q + |b|] == SEPARATOR)
  {
    PlainInside(s, a, p);
    PlainInside(s, b, q);
  }
}
