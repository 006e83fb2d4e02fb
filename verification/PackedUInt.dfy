/**
 The base-128 integers of section 2 of RFC 3284, as written by `hpatch_packUIntWithTag` and
 read by `_TStreamCacheClip_unpackUIntWithTag` with no tag bits.
 */
module PackedUInt {
  import opened Bytes

  /** `hpatch_kMaxPackedUIntBytes`: how many bytes a reader looks at. */
  const MAX_PACKED_BYTES := 11
  const TWO_57: int := 0x200_0000_0000_0000

  // --- specification -------------------------------------------------------------------

  /** The base-128 digits of `v`, most significant first, each with its continuation bit. */
  function Groups(v: nat): seq<byte> {
    if v == 0 then [] else Groups(v / 128) + [v % 128 + 128]
  }

  function Pack(v: nat): seq<byte> {
    Groups(v / 128) + [v % 128]
  }

  /** Reads digits behind the value `acc`, from at most `left` more bytes of `s`. */
  function UnpackFrom(acc: u64, s: seq<byte>, left: nat): (r: Option<(u64, seq<byte>)>)
    ensures r.Some? ==> |r.value.1| < |s|
    decreases |s|
  {
    if acc / TWO_57 != 0 || s == [] || left == 0 then None
    else
      var v: u64 := acc * 128 + s[0] % 128;
      if s[0] >= 128 then UnpackFrom(v, s[1..], left - 1) else Some((v, s[1..]))
  }

  /** The value at the front of `s` and the bytes behind it. */
  function Unpack(s: seq<byte>): (r: Option<(u64, seq<byte>)>)
    ensures r.Some? ==> |r.value.1| < |s|
  {
    UnpackFrom(0, s, MAX_PACKED_BYTES)
  }

  function Pow128(k: nat): (p: nat)
    ensures p > 0
  {
    if k == 0 then 1 else 128 * Pow128(k - 1)
  }

  // --- the two directions ----------------------------------------------------------------

  lemma {:induction false} GroupsLength(v: nat, k: nat)
    requires v < Pow128(k)
    ensures |Groups(v)| <= k
  {
    if v != 0 {
      GroupsLength(v / 128, k - 1);
    }
  }

  lemma PackLength(v: u64)
    ensures 1 <= |Pack(v)| <= 10
  {
    assert Pow128(2) == 16384;
    assert Pow128(4) == 128 * 128 * Pow128(2);
    assert Pow128(6) == 128 * 128 * Pow128(4);
    assert Pow128(8) == 128 * 128 * Pow128(6);
    assert Pow128(9) == 128 * Pow128(8);
    GroupsLength(v / 128, 9);
  }

  lemma {:induction false} UnpackGroups(v: nat, rest: seq<byte>, left: nat)
    requires v < TWO_57 && |Groups(v)| <= left
    ensures UnpackFrom(0, Groups(v) + rest, left) == UnpackFrom(v, rest, left - |Groups(v)|)
  {
    if v == 0 {
      assert Groups(v) + rest == rest;
    } else {
      var d: byte := v % 128 + 128;
      assert Groups(v) + rest == Groups(v / 128) + ([d] + rest);
      UnpackGroups(v / 128, [d] + rest, left);
      assert ([d] + rest)[1..] == rest;
    }
  }

  lemma {:induction false} UnpackLast(v: u64, rest: seq<byte>, left: nat)
    requires left > 0
    ensures UnpackFrom(v / 128, [v % 128] + rest, left) == Some((v, rest))
  {
    var s: seq<byte> := [v % 128] + rest;
    assert s[1..] == rest;
  }

  /** Reading back what was written gives the value and leaves the rest, for every 64-bit value. */
  lemma {:induction false} UnpackPack(v: u64, rest: seq<byte>)
    ensures Unpack(Pack(v) + rest) == Some((v, rest))
  {
    PackLength(v);
    UnpackLast(v, rest, MAX_PACKED_BYTES - |Groups(v / 128)|);
    UnpackGroups(v / 128, [v % 128] + rest, MAX_PACKED_BYTES);
    assert Pack(v) + rest == Groups(v / 128) + ([v % 128] + rest);
  }

  // --- the digits ------------------------------------------------------------------------

  lemma DivUnique(v: nat, d: nat, q: nat, r: nat)
    requires v == d * q + r && r < d
    ensures v / d == q
  {
    var x := v / d;
    DivBounds(v, d);
    if x < q {
      MulMono(x + 1, q, d);
    } else if q < x {
      MulMono(q + 1, x, d);
    }
  }

  lemma DivTwice(v: nat, p: nat)
    requires p > 0
    ensures (v / 128) / p == v / (128 * p)
  {
    var q := v / 128;
    var x := q / p;
    var r := q - p * x;
    DivBounds(q, p);
    assert v == 128 * q + v % 128;
    assert 128 * (p * x) == (128 * p) * x;
    DivUnique(v, 128 * p, x, 128 * r + v % 128);
  }

  /** Digit `k` of `v` to the base 128, counted from the lowest. */
  function Digit(v: nat, k: nat): nat {
    v / Pow128(k) % 128
  }

  lemma DigitNext(v: nat, k: nat)
    ensures Digit(v / 128, k) == Digit(v, k + 1)
  {
    DivTwice(v, Pow128(k));
  }

  lemma NextPower(v: nat, k: nat)
    ensures v / 128 < Pow128(k) <==> v < Pow128(k + 1)
  {
  }

  /** `g` are the digits of `v` without leading zeros, the highest first, with the high bit set. */
  predicate AreGroups(g: seq<byte>, v: nat) {
    && v < Pow128(|g|) && (g == [] || Pow128(|g| - 1) <= v)
    && forall k :: 0 <= k < |g| ==> g[k] == Digit(v, |g| - 1 - k) + 128
  }

  lemma {:induction false} GroupsDigits(v: nat)
    ensures AreGroups(Groups(v), v)
  {
    if v != 0 {
      GroupsDigits(v / 128);
      OneMoreGroup(Groups(v / 128), v);
    }
  }

  lemma OneMoreGroup(g: seq<byte>, v: nat)
    requires v > 0 && AreGroups(g, v / 128)
    ensures AreGroups(g + [v % 128 + 128], v)
  {
    hide Digit, Pow128;
    var all := g + [v % 128 + 128];
    NextPower(v, |g|);
    if g != [] {
      NextPower(v, |g| - 1);
    }
    PowerZero();
    forall k | 0 <= k < |all| ensures all[k] == Digit(v, |all| - 1 - k) + 128 {
      if k < |g| {
        DigitNext(v, |g| - 1 - k);
      } else {
        LowestDigit(v);
      }
    }
  }

  lemma PowerZero()
    ensures Pow128(0) == 1
  {
  }

  lemma LowestDigit(v: nat)
    ensures Digit(v, 0) == v % 128
  {
  }

  /** The bytes written are the digits of `v` to the base 128, the highest first and without leading
      zeros, with the high bit set in all but the last. */
  lemma {:induction false} PackDigits(v: nat)
    ensures var n := |Pack(v)|;
      && n > 0 && v < Pow128(n) && (n == 1 || Pow128(n - 1) <= v)
      && forall k :: 0 <= k < n ==> Pack(v)[k] == Digit(v, n - 1 - k) + if k < n - 1 then 128 else 0
  {
    var n := |Pack(v)|;
    GroupsDigits(v / 128);
    hide Groups, Digit, Pow128;
    NextPower(v, n - 1);
    if n > 1 {
      NextPower(v, n - 2);
    }
    forall k | 0 <= k < n ensures Pack(v)[k] == Digit(v, n - 1 - k) + if k < n - 1 then 128 else 0 {
      if k < n - 1 {
        DigitNext(v, n - 2 - k);
      } else {
        LowestDigit(v);
      }
    }
  }

  /** The example of section 2 of RFC 3284. */
  lemma PackExample()
    ensures Pack(123456789) == [0xBA, 0xEF, 0x9A, 0x15]
  {
    assert Groups(58) == [0xBA];
    assert Groups(7535) == [0xBA, 0xEF];
    assert Groups(964506) == [0xBA, 0xEF, 0x9A];
  }

  // --- the loops of the source -----------------------------------------------------------

  /** The next digit moves from what is left to what is found. */
  lemma {:induction false} DigitFound(value: nat, v: nat, tail: seq<byte>)
    requires if tail == [] then v == value else v > 0 && Pack(value) == Groups(v) + tail
    ensures Pack(value) == Groups(v / 128) + ([v % 128 + if tail == [] then 0 else 128] + tail)
  {
    if tail != [] {
      var d: byte := v % 128 + 128;
      Regroup(Groups(v / 128), [d], tail);
    }
  }

  lemma {:induction false} OneDigit(v: nat)
    requires v < 128
    ensures Pack(v) == [v] && (v > 0 ==> Groups(v) == [v + 128])
  {
  }

  /** The digits are found low first into a buffer and copied out from its end. */
  method PackUInt(value: u64) returns (code: seq<byte>)
    ensures code == Pack(value)
  {
    hide Pack, Groups;
    var v: nat := value;
    var codeBuf: seq<byte> := [];
    ghost var tail: seq<byte> := [];
    while v > 127
      invariant codeBuf == [] ==> v == value
      invariant codeBuf != [] ==> v > 0 && Pack(value) == Groups(v) + tail
      invariant |tail| == |codeBuf|
      invariant forall i :: 0 <= i < |codeBuf| ==>
                              codeBuf[i] < 128
                              && tail[|codeBuf| - 1 - i] == codeBuf[i] + (if i == 0 then 0 else 128)
    {
      DigitFound(value, v, tail);
      ghost var d: byte := v % 128 + (if codeBuf == [] then 0 else 128);
      tail := [d] + tail;
      codeBuf := codeBuf + [v % 128];
      v := v / 128;
    }
    OneDigit(v);
    code := [v + (if codeBuf != [] then 128 else 0)];
    assert codeBuf != [] ==> Pack(value) == code + tail;
    var codeEnd := |codeBuf|;
    while codeEnd != 0
      invariant 0 <= codeEnd <= |codeBuf|
      invariant codeBuf == [] ==> code == Pack(value)
      invariant codeBuf != [] ==> Pack(value) == code + tail[|codeBuf| - codeEnd..]
    {
      codeEnd := codeEnd - 1;
      var b: byte := codeBuf[codeEnd] + (if codeEnd != 0 then 128 else 0);
      assert tail[|codeBuf| - 1 - codeEnd..] == [b] + tail[|codeBuf| - codeEnd..];
      code := code + [b];
    }
  }

  /** The reading loop, over the at most eleven bytes that are looked at. */
  method UnpackCode(code: seq<byte>) returns (ok: bool, value: u64, used: nat)
    requires |code| <= MAX_PACKED_BYTES
    ensures ok == Unpack(code).Some?
    ensures ok ==> used <= |code| && Unpack(code) == Some((value, code[used..]))
  {
    value, used := 0, 0;
    if code == [] {
      return false, 0, 0;
    }
    var b := code[0];
    used := 1;
    value := b % 128;
    while b >= 128
      invariant 1 <= used <= |code|
      invariant Unpack(code) == if b >= 128 then UnpackFrom(value, code[used..], MAX_PACKED_BYTES - used)
                                else Some((value, code[used..]))
      decreases |code| - used
    {
      if value / TWO_57 != 0 || used == |code| {
        return false, value, used;
      }
      b := code[used];
      assert code[used..][0] == b && code[used..][1..] == code[used + 1..];
      used := used + 1;
      value := value * 128 + b % 128;
    }
    ok := true;
  }

  /** Only the first eleven bytes matter. */
  lemma {:induction false} UnpackFromPrefix(acc: u64, s: seq<byte>, n: nat, left: nat)
    requires n <= |s| && (n == |s| || left <= n)
    ensures UnpackFrom(acc, s, left)
         == match UnpackFrom(acc, s[..n], left)
            case None => None
            case Some(p) => Some((p.0, p.1 + s[n..]))
    decreases left
  {
    if acc / TWO_57 != 0 || s == [] || left == 0 {
    } else {
      assert s[..n][1..] == s[1..][..n - 1] && s[1..][n - 1..] == s[n..];
      if s[0] >= 128 {
        UnpackFromPrefix(acc * 128 + s[0] % 128, s[1..], n - 1, left - 1);
      } else {
        assert s[1..] == s[1..][..n - 1] + s[n..];
      }
    }
  }

  lemma {:induction false} UnpackPrefix(s: seq<byte>, n: nat)
    requires n <= |s| && (n == |s| || MAX_PACKED_BYTES <= n)
    ensures Unpack(s)
         == match Unpack(s[..n])
            case None => None
            case Some(p) => Some((p.0, p.1 + s[n..]))
  {
    UnpackFromPrefix(0, s, n, MAX_PACKED_BYTES);
  }
}
