/**
 Ignore patterns for directories (`isMatchIgnore`): the backtracking search for the parts of a
 pattern between wildcards, and what it decides.
 */
module IgnoreMatch {
  import opened Bytes

  /** The platform's separator in paths. */
  const SEPARATOR: char
  /** The character that stands for `*` in a formatted pattern, also the platform's. */
  const MAGIC: char

  /** A part of a pattern between wildcards; whether it begins or ends the whole pattern. */
  datatype Segment = Segment(text: seq<char>, atBegin: bool, atEnd: bool)

  // --- the parts of a pattern ----------------------------------------------------------------------

  /** The next wildcard from `i` on, or the end. */
  function Clip(ignore: seq<char>, i: nat): (c: nat)
    requires i <= |ignore|
    ensures i <= c <= |ignore| && (c < |ignore| ==> ignore[c] == MAGIC)
    ensures forall k :: i <= k < c ==> ignore[k] != MAGIC
    decreases |ignore| - i
  {
    if i == |ignore| || ignore[i] == MAGIC then i else Clip(ignore, i + 1)
  }

  function Segments(ignore: seq<char>, i: nat): seq<Segment>
    decreases |ignore| - i
  {
    if i >= |ignore| then []
    else
      var c := Clip(ignore, i);
      (if i < c then [Segment(ignore[i..c], i == 0, c == |ignore|)] else []) + Segments(ignore, c + 1)
  }

  function Texts(segs: seq<Segment>): seq<char> {
    if segs == [] then [] else segs[0].text + Texts(segs[1..])
  }

  function WithoutMagic(s: seq<char>): seq<char> {
    if s == [] then [] else (if s[0] == MAGIC then [] else [s[0]]) + WithoutMagic(s[1..])
  }

  lemma {:induction false} WithoutMagicOf(a: seq<char>, b: seq<char>)
    requires MAGIC !in a
    ensures WithoutMagic(a + b) == a + WithoutMagic(b)
  {
    if a == [] {
      assert a + b == b;
    } else {
      assert (a + b)[1..] == a[1..] + b;
      WithoutMagicOf(a[1..], b);
      assert [a[0]] + (a[1..] + WithoutMagic(b)) == a + WithoutMagic(b);
    }
  }

  predicate AreRuns(segs: seq<Segment>) {
    forall k :: 0 <= k < |segs| ==> segs[k].text != [] && MAGIC !in segs[k].text
  }

  /** The parts are the runs between wildcards: none is empty or holds a wildcard, and together they
      are the pattern without its wildcards. */
  lemma {:induction false} SegmentsAreRuns(ignore: seq<char>, i: nat)
    ensures AreRuns(Segments(ignore, i))
    ensures i <= |ignore| ==> Texts(Segments(ignore, i)) == WithoutMagic(ignore[i..])
    decreases |ignore| - i
  {
    hide Segments, Clip, AreRuns, WithoutMagic, Texts;
    if i < |ignore| {
      var c := Clip(ignore, i);
      var rest := Segments(ignore, c + 1);
      SegmentsAreRuns(ignore, c + 1);
      RunFirst(ignore, i, c);
      assert |ignore[i..c]| == c - i;
      RunInFront(ignore[i..c], i == 0, c == |ignore|, rest);
      SegmentsStep(ignore, i);
      if c + 1 > |ignore| {
        NoRuns(ignore, c + 1);
      }
    } else {
      NoRuns(ignore, i);
    }
  }

  lemma {:induction false} SegmentsStep(ignore: seq<char>, i: nat)
    requires i < |ignore|
    ensures var c := Clip(ignore, i);
      Segments(ignore, i)
      == (if i < c then [Segment(ignore[i..c], i == 0, c == |ignore|)] else []) + Segments(ignore, c + 1)
  {
  }

  lemma {:induction false} RunInFront(text: seq<char>, atBegin: bool, atEnd: bool, rest: seq<Segment>)
    requires AreRuns(rest) && MAGIC !in text
    ensures var segs := (if text != [] then [Segment(text, atBegin, atEnd)] else []) + rest;
      AreRuns(segs) && Texts(segs) == text + Texts(rest)
  {
    var segs := (if text != [] then [Segment(text, atBegin, atEnd)] else []) + rest;
    if text != [] {
      assert segs[1..] == rest;
    } else {
      assert segs == rest && text + Texts(rest) == Texts(rest);
    }
  }

  lemma {:induction false} NoRuns(ignore: seq<char>, i: nat)
    requires i >= |ignore|
    ensures Segments(ignore, i) == [] && AreRuns(Segments(ignore, i)) && Texts(Segments(ignore, i)) == []
    ensures i <= |ignore| ==> Texts(Segments(ignore, i)) == WithoutMagic(ignore[i..])
  {
  }

  lemma {:induction false} RunFirst(ignore: seq<char>, i: nat, c: nat)
    requires i < |ignore| && c == Clip(ignore, i)
    ensures i <= c <= |ignore| && MAGIC !in ignore[i..c]
    ensures WithoutMagic(ignore[i..])
         == ignore[i..c] + if c + 1 <= |ignore| then WithoutMagic(ignore[c + 1..]) else []
  {
    hide Clip, WithoutMagic;
    WithoutMagicOf(ignore[i..c], ignore[c..]);
    assert ignore[i..] == ignore[i..c] + ignore[c..];
    MagicDrops(ignore, c);
  }

  lemma {:induction false} MagicDrops(ignore: seq<char>, c: nat)
    requires c <= |ignore| && (c < |ignore| ==> ignore[c] == MAGIC)
    ensures WithoutMagic(ignore[c..]) == if c + 1 <= |ignore| then WithoutMagic(ignore[c + 1..]) else []
  {
    if c < |ignore| {
      assert ignore[c..][1..] == ignore[c + 1..];
      assert [] + WithoutMagic(ignore[c + 1..]) == WithoutMagic(ignore[c + 1..]);
    }
  }

  // --- what a match is -----------------------------------------------------------------------------

  /** The first part may begin inside a name only behind a wildcard, or when it begins with a
      separator. */
  predicate FrontRule(s: seq<char>, p: nat, seg: Segment)
    requires seg.text != [] && p <= |s|
  {
    p > 0 && seg.atBegin && seg.text[0] != SEPARATOR ==> s[p - 1] == SEPARATOR
  }

  predicate BackRule(s: seq<char>, end: nat, seg: Segment)
    requires seg.text != []
  {
    end < |s| && seg.atEnd && seg.text[|seg.text| - 1] != SEPARATOR ==> s[end] == SEPARATOR
  }

  predicate NoSeparator(s: seq<char>, from: nat, to: nat) {
    forall k :: from <= k < to && k < |s| ==> s[k] != SEPARATOR
  }

  predicate AllOccur(s: seq<char>, segs: seq<Segment>, ps: seq<nat>)
    requires |ps| == |segs|
  {
    forall k :: 0 <= k < |segs| ==> OccursAt(s, segs[k].text, ps[k])
  }

  /** From a part at `p` to the next at `q` there is no overlap and no separator. */
  predicate GapOk(s: seq<char>, seg: Segment, p: nat, q: nat) {
    p + |seg.text| <= q && NoSeparator(s, p + |seg.text|, q)
  }

  predicate GapsOk(s: seq<char>, segs: seq<Segment>, ps: seq<nat>)
    requires |ps| == |segs|
  {
    forall k :: 0 <= k < |segs| - 1 ==> GapOk(s, segs[k], ps[k], ps[k + 1])
  }

  predicate GoodSegments(segs: seq<Segment>) {
    segs != [] && forall k :: 0 <= k < |segs| ==> segs[k].text != []
  }

  /** Increasing places for all parts, without overlap, with no separator in a gap between two, and
      with whole names at a front and a back that no wildcard opens. */
  ghost predicate Matches(s: seq<char>, segs: seq<Segment>, ps: seq<nat>)
    requires GoodSegments(segs)
  {
    && |ps| == |segs|
    && AllOccur(s, segs, ps) && GapsOk(s, segs, ps)
    && FrontRule(s, ps[0], segs[0])
    && BackRule(s, ps[|ps| - 1] + |segs[|segs| - 1].text|, segs[|segs| - 1])
  }

  /** What `isMatchIgnore` decides: a pattern of wildcards only matches every path. */
  ghost predicate Ignores(s: seq<char>, ignore: seq<char>) {
    var segs := Segments(ignore, 0);
    segs == [] || (GoodSegments(segs) && exists ps: seq<nat> :: Matches(s, segs, ps))
  }

  // --- the same, part by part ------------------------------------------------------------------------

  /** `p` can be the place of the first of the parts left, for a search that begins at `begin`. */
  ghost predicate Choice(s: seq<char>, begin: nat, segs: seq<Segment>, isFirst: bool, p: nat)
    requires GoodSegments(segs)
    decreases |segs|, 0
  {
    && begin <= p && OccursAt(s, segs[0].text, p)
    && (if isFirst then FrontRule(s, p, segs[0]) else NoSeparator(s, begin, p))
    && (if |segs| == 1 then BackRule(s, p + |segs[0].text|, segs[0])
        else Possible(s, p + |segs[0].text|, segs[1..], false))
  }

  ghost predicate Possible(s: seq<char>, begin: nat, segs: seq<Segment>, isFirst: bool)
    requires GoodSegments(segs)
    decreases |segs|, 1
  {
    exists p: nat :: Choice(s, begin, segs, isFirst, p)
  }

  /** Places for the parts left behind `begin`. */
  ghost predicate MatchesFrom(s: seq<char>, begin: nat, segs: seq<Segment>, isFirst: bool, ps: seq<nat>)
    requires GoodSegments(segs)
  {
    && |ps| == |segs|
    && AllOccur(s, segs, ps) && GapsOk(s, segs, ps)
    && begin <= ps[0]
    && (if isFirst then FrontRule(s, ps[0], segs[0]) else NoSeparator(s, begin, ps[0]))
    && BackRule(s, ps[|ps| - 1] + |segs[|segs| - 1].text|, segs[|segs| - 1])
  }

  lemma {:induction false} GoodRest(segs: seq<Segment>)
    requires GoodSegments(segs) && |segs| > 1
    ensures GoodSegments(segs[1..])
  {
  }

  /** One more part in front. */
  lemma FrontOccurs(s: seq<char>, segs: seq<Segment>, p: nat, rest: seq<nat>)
    requires |segs| > 1 && |rest| == |segs| - 1
    ensures AllOccur(s, segs, [p] + rest) <==> OccursAt(s, segs[0].text, p) && AllOccur(s, segs[1..], rest)
  {
    hide OccursAt;
    var ps, t := [p] + rest, segs[1..];
    if AllOccur(s, segs, ps) {
      forall k | 0 <= k < |t| ensures OccursAt(s, t[k].text, rest[k]) {
        assert OccursAt(s, segs[k + 1].text, ps[k + 1]);
      }
    }
    if OccursAt(s, segs[0].text, p) && AllOccur(s, t, rest) {
      forall k | 0 <= k < |segs| ensures OccursAt(s, segs[k].text, ps[k]) {
        assert k > 0 ==> OccursAt(s, t[k - 1].text, rest[k - 1]);
      }
    }
  }

  lemma FrontGaps(s: seq<char>, segs: seq<Segment>, p: nat, rest: seq<nat>)
    requires |segs| > 1 && |rest| == |segs| - 1
    ensures GapsOk(s, segs, [p] + rest) <==> GapOk(s, segs[0], p, rest[0]) && GapsOk(s, segs[1..], rest)
  {
    hide GapOk;
    var ps, t := [p] + rest, segs[1..];
    if GapsOk(s, segs, ps) {
      assert GapOk(s, segs[0], ps[0], ps[1]);
      forall k | 0 <= k < |t| - 1 ensures GapOk(s, t[k], rest[k], rest[k + 1]) {
        assert GapOk(s, segs[k + 1], ps[k + 1], ps[(k + 1) + 1]);
      }
    }
    if GapOk(s, segs[0], p, rest[0]) && GapsOk(s, t, rest) {
      forall k | 0 <= k < |segs| - 1 ensures GapOk(s, segs[k], ps[k], ps[k + 1]) {
        if k > 0 {
          assert GapOk(s, t[k - 1], rest[k - 1], rest[(k - 1) + 1]);
        }
      }
    }
  }

  lemma {:induction false} PossibleGivesPlaces(s: seq<char>, begin: nat, segs: seq<Segment>, isFirst: bool) returns (ps: seq<nat>)
    requires GoodSegments(segs) && Possible(s, begin, segs, isFirst)
    ensures MatchesFrom(s, begin, segs, isFirst, ps)
    decreases |segs|
  {
    hide FrontRule, BackRule, NoSeparator;
    var p: nat :| Choice(s, begin, segs, isFirst, p);
    if |segs| == 1 {
      ps := [p];
    } else {
      hide AllOccur, GapsOk, OccursAt;
      GoodRest(segs);
      var rest := PossibleGivesPlaces(s, p + |segs[0].text|, segs[1..], false);
      ps := [p] + rest;
      FrontOccurs(s, segs, p, rest);
      FrontGaps(s, segs, p, rest);
      FitsIn(s, p, segs[0].text);
      assert segs[1..][|segs| - 2] == segs[|segs| - 1];
    }
  }

  lemma FitsIn(s: seq<char>, p: nat, text: seq<char>)
    requires OccursAt(s, text, p)
    ensures p + |text| <= |s|
  {
  }

  lemma {:induction false} PlacesArePossible(s: seq<char>, begin: nat, segs: seq<Segment>, isFirst: bool, ps: seq<nat>)
    requires GoodSegments(segs) && MatchesFrom(s, begin, segs, isFirst, ps)
    ensures Possible(s, begin, segs, isFirst)
    decreases |segs|
  {
    hide FrontRule, BackRule, NoSeparator;
    assert OccursAt(s, segs[0].text, ps[0]);
    if |segs| > 1 {
      hide AllOccur, GapsOk, OccursAt;
      GoodRest(segs);
      var rest := ps[1..];
      assert ps == [ps[0]] + rest;
      FrontOccurs(s, segs, ps[0], rest);
      FrontGaps(s, segs, ps[0], rest);
      assert segs[1..][|segs| - 2] == segs[|segs| - 1];
      PlacesArePossible(s, ps[0] + |segs[0].text|, segs[1..], false, rest);
    }
    assert Choice(s, begin, segs, isFirst, ps[0]);
  }

  /** The search part by part finds a match exactly when places for all parts exist. */
  lemma {:induction false} PossibleIsMatch(s: seq<char>, segs: seq<Segment>)
    requires GoodSegments(segs)
    ensures Possible(s, 0, segs, true) <==> exists ps: seq<nat> :: Matches(s, segs, ps)
  {
    if Possible(s, 0, segs, true) {
      var ps := PossibleGivesPlaces(s, 0, segs, true);
      assert Matches(s, segs, ps);
    }
    forall ps: seq<nat> | Matches(s, segs, ps) ensures Possible(s, 0, segs, true) {
      PlacesArePossible(s, 0, segs, true, ps);
    }
  }

  // --- the search -----------------------------------------------------------------------------------------

  /** `std::search`: the first occurrence from `cur` on. */
  method Find(s: seq<char>, cur: nat, text: seq<char>) returns (found: nat)
    requires cur <= |s| && text != []
    ensures cur <= found <= |s|
    ensures found < |s| ==> OccursAt(s, text, found)
    ensures forall p: nat :: cur <= p < found ==> !OccursAt(s, text, p)
    ensures found == |s| ==> forall p: nat :: cur <= p ==> !OccursAt(s, text, p)
  {
    found := cur;
    while found + |text| <= |s|
      invariant cur <= found <= |s|
      invariant forall p: nat :: cur <= p < found ==> !OccursAt(s, text, p)
    {
      if s[found..found + |text|] == text {
        return;
      }
      found := found + 1;
    }
    found := |s|;
  }

  /** The checks on one occurrence, apart from the parts behind it. */
  method CheckPlace(s: seq<char>, begin: nat, found: nat, seg: Segment, isFirst: bool, isLast: bool) returns (ok: bool)
    requires seg.text != [] && begin <= found && found + |seg.text| <= |s| && (isFirst ==> begin == 0)
    ensures ok == ((if isFirst then FrontRule(s, found, seg) else NoSeparator(s, begin, found))
                   && (isLast ==> BackRule(s, found + |seg.text|, seg)))
  {
    ok := true;
    if begin < found {
      if !isFirst {
        var it := begin;
        while it < found
          invariant begin <= it <= found && ok
          invariant NoSeparator(s, begin, it)
        {
          if s[it] == SEPARATOR {
            return false;
          }
          it := it + 1;
        }
      } else if seg.atBegin && seg.text[0] != SEPARATOR && s[found - 1] != SEPARATOR {
        ok := false;
      }
    }
    var foundEnd := found + |seg.text|;
    if ok && isLast && foundEnd < |s| {
      if seg.atEnd && seg.text[|seg.text| - 1] != SEPARATOR && s[foundEnd] != SEPARATOR {
        ok := false;
      }
    }
  }

  /** `_matchIgnore`: tries every occurrence of the first part left, from front to back. */
  method MatchIgnore(s: seq<char>, begin: nat, segs: seq<Segment>, isFirst: bool) returns (r: bool)
    requires GoodSegments(segs) && begin <= |s| && (isFirst ==> begin == 0)
    ensures r == Possible(s, begin, segs, isFirst)
    decreases |segs|
  {
    hide Possible, FrontRule, BackRule, NoSeparator;
    var seg := segs[0];
    var cur := begin;
    while cur < |s|
      invariant begin <= cur <= |s|
      invariant forall p: nat :: p < cur ==> !Choice(s, begin, segs, isFirst, p)
    {
      var found := Find(s, cur, seg.text);
      if found == |s| {
        assert forall p: nat :: !Choice(s, begin, segs, isFirst, p);
        NotPossible(s, begin, segs, isFirst);
        return false;
      }
      var isMatched := CheckPlace(s, begin, found, seg, isFirst, |segs| == 1);
      if isMatched && |segs| > 1 {
        GoodRest(segs);
        isMatched := MatchIgnore(s, found + |seg.text|, segs[1..], false);
      }
      assert isMatched == Choice(s, begin, segs, isFirst, found);
      if isMatched {
        IsPossible(s, begin, segs, isFirst, found);
        return true;
      }
      cur := found + 1;
    }
    NotPossible(s, begin, segs, isFirst);
    return false;
  }

  lemma {:induction false} IsPossible(s: seq<char>, begin: nat, segs: seq<Segment>, isFirst: bool, p: nat)
    requires GoodSegments(segs) && Choice(s, begin, segs, isFirst, p)
    ensures Possible(s, begin, segs, isFirst)
  {
  }

  lemma {:induction false} NotPossible(s: seq<char>, begin: nat, segs: seq<Segment>, isFirst: bool)
    requires GoodSegments(segs)
    requires forall p: nat :: p < |s| ==> !Choice(s, begin, segs, isFirst, p)
    ensures !Possible(s, begin, segs, isFirst)
  {
    forall p: nat ensures !Choice(s, begin, segs, isFirst, p) {
    }
  }

  /** The loop of `isMatchIgnore` over the wildcards. */
  method SplitIgnore(ignore: seq<char>) returns (matchs: seq<Segment>)
    ensures matchs == Segments(ignore, 0)
  {
    hide Segments, Clip;
    matchs := [];
    var curI := 0;
    ghost var all := Segments(ignore, 0);
    while curI < |ignore|
      invariant 0 <= curI && matchs + Segments(ignore, curI) == all
      decreases |ignore| - curI
    {
      var clip := FindMagic(ignore, curI);
      SegmentsStep(ignore, curI);
      ghost var done, rest := matchs, Segments(ignore, clip + 1);
      if curI < clip {
        var seg := Segment(ignore[curI..clip], curI == 0, clip == |ignore|);
        matchs := matchs + [seg];
        Regroup(done, [seg], rest);
      } else {
        Regroup(done, [], rest);
      }
      curI := clip + 1;
    }
    NoRuns(ignore, curI);
  }

  /** `isMatchIgnore`: a pattern of wildcards only matches every path; another one exactly when its
      parts have places in the path. */
  method IsMatchIgnore(subPath: seq<char>, ignore: seq<char>) returns (r: bool)
    requires ignore != []
    ensures r <==> Ignores(subPath, ignore)
    ensures Segments(ignore, 0) != [] ==> GoodSegments(Segments(ignore, 0))
  {
    hide Possible, Matches, OccursAt, Segments;
    var matchs := SplitIgnore(ignore);
    if matchs == [] {
      return true;
    }
    SegmentsAreRuns(ignore, 0);
    r := MatchIgnore(subPath, 0, matchs, true);
    PossibleIsMatch(subPath, matchs);
  }

  /** `std::find` for the wildcard. */
  method FindMagic(ignore: seq<char>, from: nat) returns (clip: nat)
    requires from <= |ignore|
    ensures clip == Clip(ignore, from)
  {
    clip := from;
    while clip < |ignore| && ignore[clip] != MAGIC
      invariant from <= clip <= |ignore|
      invariant Clip(ignore, clip) == Clip(ignore, from)
    {
      clip := clip + 1;
    }
  }
}
