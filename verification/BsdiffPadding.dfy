/**
 Bytes behind the end of the streams: a decompressor that delivers more than was packed, such as
 padding up to a whole cache, does not change a patch that succeeds without them.
 */
module BsdiffPadding {
  import opened Bytes
  import opened BsdiffCodes
  import opened BsdiffRoundTrip

  /** Every stream of `g` begins with that of `f`. */
  predicate Extends(f: Feed, g: Feed) {
    match (f, g)
    case (Three(c, s, d), Three(c1, s1, d1)) => c <= c1 && s <= s1 && d <= d1
    case (One(a), One(a1)) => a <= a1
    case _ => false
  }

  /** The same state, with more bytes left to read. */
  predicate Longer(st: State, st1: State) {
    st1.newPos == st.newPos && st1.oldPos == st.oldPos && st1.out == st.out && Extends(st.feed, st1.feed)
  }

  lemma CutExtends(s: seq<byte>, t: seq<byte>, n: nat)
    requires s <= t && Cut(s, n).Some?
    ensures Cut(t, n).Some? && Cut(t, n).value.0 == Cut(s, n).value.0 && Cut(s, n).value.1 <= Cut(t, n).value.1
  {
  }

  lemma TakeExtends(f: Feed, g: Feed, n: nat)
    requires Extends(f, g)
    ensures TakeCtrl(f, n).Some? ==>
              TakeCtrl(g, n).Some? && TakeCtrl(g, n).value.0 == TakeCtrl(f, n).value.0
              && Extends(TakeCtrl(f, n).value.1, TakeCtrl(g, n).value.1)
    ensures TakeSub(f, n).Some? ==>
              TakeSub(g, n).Some? && TakeSub(g, n).value.0 == TakeSub(f, n).value.0
              && Extends(TakeSub(f, n).value.1, TakeSub(g, n).value.1)
    ensures TakeCopy(f, n).Some? ==>
              TakeCopy(g, n).Some? && TakeCopy(g, n).value.0 == TakeCopy(f, n).value.0
              && Extends(TakeCopy(f, n).value.1, TakeCopy(g, n).value.1)
  {
    match (f, g)
    case (Three(c, s, d), Three(c1, s1, d1)) =>
      if |c| >= n { CutExtends(c, c1, n); }
      if |s| >= n { CutExtends(s, s1, n); }
      if |d| >= n { CutExtends(d, d1, n); }
    case (One(a), One(a1)) =>
      if |a| >= n { CutExtends(a, a1, n); }
  }

  lemma RoundExtends(oldData: seq<byte>, newLen: nat, st: State, st1: State)
    requires Longer(st, st1) && Round(oldData, newLen, st).Some?
    ensures Round(oldData, newLen, st1).Some?
    ensures Longer(Round(oldData, newLen, st).value, Round(oldData, newLen, st1).value)
  {
    hide TakeCtrl, TakeSub, TakeCopy, Extends, ReadUInt64, OldPosAfter, AddBytes;
    TakeExtends(st.feed, st1.feed, CTRL_BYTES);
    var (t, f) := TakeCtrl(st.feed, CTRL_BYTES).value;
    var g := TakeCtrl(st1.feed, CTRL_BYTES).value.1;
    var coverLen, skip := ReadUInt64(t[..8]), ReadUInt64(t[8..16]);
    TakeExtends(f, g, coverLen);
    var next := OldPosAfter(st.oldPos, coverLen, ReadUInt64(t[16..]));
    var a := CoverStep(oldData, newLen, coverLen, st.(feed := f)).value.(oldPos := next);
    var b := CoverStep(oldData, newLen, coverLen, st1.(feed := g)).value.(oldPos := next);
    TakeExtends(a.feed, b.feed, skip);
  }

  /** More bytes behind the streams never change a patch that succeeds. */
  lemma {:induction false} PatchExtends(oldData: seq<byte>, newLen: nat, st: State, st1: State)
    requires Longer(st, st1) && Patch(oldData, newLen, st).Some?
    ensures Patch(oldData, newLen, st1) == Patch(oldData, newLen, st)
    decreases Size(st.feed)
  {
    assert st1.newPos == st.newPos && st1.out == st.out;
    hide Round, Longer;
    if st.newPos < newLen {
      RoundExtends(oldData, newLen, st, st1);
      PatchExtends(oldData, newLen, Round(oldData, newLen, st).value, Round(oldData, newLen, st1).value);
    }
  }
}
