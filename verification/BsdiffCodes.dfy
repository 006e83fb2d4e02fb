/**
 The numbers of a bsdiff control stream: 64-bit little-endian words, the last of each three with
 sign and magnitude (`pushSInt64`, `readUInt64`).
 */
module BsdiffCodes {
  import opened Bytes

  const TWO_63: int := 0x8000_0000_0000_0000

  // --- little-endian words ------------------------------------------------------------------------

  function Le(v: nat, n: nat): (s: seq<byte>)
    ensures |s| == n
  {
    if n == 0 then [] else [v % 256] + Le(v / 256, n - 1)
  }

  function FromLe(s: seq<byte>): nat {
    if s == [] then 0 else s[0] + 256 * FromLe(s[1..])
  }

  function Pow256(n: nat): nat {
    if n == 0 then 1 else 256 * Pow256(n - 1)
  }

  lemma {:induction false} FromLeOfLe(v: nat, n: nat)
    requires v < Pow256(n)
    ensures FromLe(Le(v, n)) == v
  {
    if n > 0 {
      FromLeOfLe(v / 256, n - 1);
      assert Le(v, n)[1..] == Le(v / 256, n - 1);
    }
  }

  function Word(v: u64): (s: seq<byte>)
    ensures |s| == 8
  {
    Le(v, 8)
  }

  /** `_readUInt32` and `readUInt64`: the bytes of a word at their places. */
  function ReadUInt32(b: seq<byte>): (v: nat)
    requires |b| == 4
    ensures v < 0x1_0000_0000
  {
    var b0: int, b1: int, b2: int, b3: int := b[0], b[1], b[2], b[3];
    b0 + b1 * 0x100 + b2 * 0x1_0000 + b3 * 0x100_0000
  }

  function ReadUInt64(b: seq<byte>): (v: u64)
    requires |b| == 8
  {
    ReadUInt32(b[..4]) + ReadUInt32(b[4..]) * 0x1_0000_0000
  }

  lemma {:induction false} FromLeFour(b: seq<byte>)
    requires |b| == 4
    ensures FromLe(b) == ReadUInt32(b)
  {
    var b1 := b[1..];
    var b2 := b1[1..];
    var b3 := b2[1..];
    assert b3[1..] == [] && b1[0] == b[1] && b2[0] == b[2] && b3[0] == b[3];
    assert FromLe(b3) == b[3];
    assert FromLe(b2) == b[2] + 256 * FromLe(b3);
    assert FromLe(b1) == b[1] + 256 * FromLe(b2);
  }

  lemma {:induction false} FromLeSplit(a: seq<byte>, b: seq<byte>)
    ensures FromLe(a + b) == FromLe(a) + Pow256(|a|) * FromLe(b)
  {
    if a == [] {
      assert a + b == b;
    } else {
      assert (a + b)[1..] == a[1..] + b;
      FromLeSplit(a[1..], b);
      Distribute(FromLe(a[1..]), Pow256(|a| - 1), FromLe(b));
    }
  }

  lemma Distribute(x: nat, p: nat, y: nat)
    ensures 256 * (x + p * y) == 256 * x + (256 * p) * y
  {
  }

  lemma PowFourEight()
    ensures Pow256(4) == 0x1_0000_0000 && Pow256(8) == TWO_64
  {
    assert Pow256(2) == 0x1_0000;
    assert Pow256(4) == 256 * (256 * Pow256(2));
    assert Pow256(6) == 256 * (256 * Pow256(4));
    assert Pow256(8) == 256 * (256 * Pow256(6));
  }

  /** Every 64-bit word is read back as it was written. */
  lemma {:induction false} ReadWord(v: u64)
    ensures ReadUInt64(Word(v)) == v
  {
    var s := Word(v);
    PowFourEight();
    FromLeOfLe(v, 8);
    assert s == s[..4] + s[4..];
    FromLeSplit(s[..4], s[4..]);
    FromLeFour(s[..4]);
    FromLeFour(s[4..]);
  }

  /** Eight bytes, the lowest first, with the value `v`. */
  predicate IsWord(s: seq<byte>, v: int) {
    && |s| == 8
    && var b: seq<int> := s;
       v == b[0] + b[1] * 0x100 + b[2] * 0x1_0000 + b[3] * 0x100_0000
            + b[4] * 0x1_0000_0000 + b[5] * 0x100_0000_0000 + b[6] * 0x1_0000_0000_0000 + b[7] * 0x100_0000_0000_0000
  }

  lemma ReadIsWord(s: seq<byte>)
    requires |s| == 8
    ensures IsWord(s, ReadUInt64(s))
  {
    var lo, hi := s[..4], s[4..];
    assert lo[0] == s[0] && lo[1] == s[1] && lo[2] == s[2] && lo[3] == s[3];
    assert hi[0] == s[4] && hi[1] == s[5] && hi[2] == s[6] && hi[3] == s[7];
  }

  lemma WordIsWord(v: u64)
    ensures IsWord(Word(v), v)
  {
    ReadWord(v);
    ReadIsWord(Word(v));
  }

  /** The same for four bytes. */
  predicate IsWord32(s: seq<byte>, v: int) {
    && |s| == 4
    && var b: seq<int> := s;
       v == b[0] + b[1] * 0x100 + b[2] * 0x1_0000 + b[3] * 0x100_0000
  }

  lemma {:induction false} Le32IsWord(v: nat)
    requires v < 0x1_0000_0000
    ensures IsWord32(Le(v, 4), v)
  {
    PowFourEight();
    FromLeOfLe(v, 4);
    FromLeFour(Le(v, 4));
  }

  // --- sign and magnitude ----------------------------------------------------------------------------

  /** What `pushSInt64` stores for a 64-bit difference. */
  function SignMagnitude(v: u64): u64 {
    if v / TWO_63 == 1 then
      var m := Wrap64(0 - v);
      if m >= TWO_63 then m else m + TWO_63
    else v
  }

  /** What the patcher adds for a stored word. */
  function Signed(s: u64): (d: int)
    ensures -TWO_63 < d < TWO_63
  {
    if s / TWO_63 == 0 then s else -(s % TWO_63)
  }

  /** The stored word stands for the difference, modulo 2^64, exactly when that is not 2^63. */
  lemma SignedOfSignMagnitude(v: u64)
    ensures Wrap64(Signed(SignMagnitude(v))) == v <==> v != TWO_63
  {
    if v < TWO_63 {
      assert SignMagnitude(v) == v;
    } else {
      var m := TWO_64 - v;
      NegWrap(v);
      if v > TWO_63 {
        assert SignMagnitude(v) == m + TWO_63;
        ShiftedMod(m);
        assert Signed(SignMagnitude(v)) == -m;
        NegWrap(m);
      } else {
        assert SignMagnitude(v) == TWO_63;
        assert Signed(TWO_63) == 0;
      }
    }
  }

  lemma NegWrap(v: u64)
    requires v > 0
    ensures Wrap64(0 - v) == TWO_64 - v
  {
    WrapShift(TWO_64 - v, -1);
  }

  lemma ShiftedMod(m: nat)
    requires m < TWO_63
    ensures (m + TWO_63) % TWO_63 == m && (m + TWO_63) / TWO_63 == 1
  {
  }

  /** The old position behind a cover and the stored skip. */
  function OldPosAfter(oldPos: u64, coverLen: u64, skipOld: u64): u64 {
    Wrap64(oldPos + coverLen + Signed(skipOld))
  }

  /** With positions below 2^63 the patcher reaches the next old position, forward or backward. */
  lemma NextOldPos(oldPos: nat, coverLen: nat, next: nat)
    requires oldPos + coverLen < TWO_63 && next < TWO_63
    ensures OldPosAfter(oldPos, coverLen, SignMagnitude(Wrap64(next - (oldPos + coverLen)))) == next
  {
    var d := next - (oldPos + coverLen);
    if d >= 0 {
      assert Wrap64(d) == d;
    } else {
      NegWrap(-d);
      NegWrap(TWO_64 + d);
      assert SignMagnitude(Wrap64(d)) == -d + TWO_63;
      ShiftedMod(-d);
    }
  }
}
