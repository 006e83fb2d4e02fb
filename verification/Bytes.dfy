/** Bytes, 64-bit unsigned arithmetic and the small shared datatypes. */
module Bytes {
  const TWO_64: int := 0x1_0000_0000_0000_0000

  type byte = x: int | 0 <= x < 256
  type u64 = x: int | 0 <= x < TWO_64

  /** The value a C `uint64_t` expression has when its exact value is `x`. */
  function Wrap64(x: int): u64 {
    x % TWO_64
  }

  /** A value, or the failure a C function reports by returning false. */
  datatype Option<+T> = None | Some(value: T) {
    predicate IsFailure() {
      None?
    }

    function PropagateFailure<U>(): Option<U>
      requires None?
    {
      None
    }

    function Extract(): T
      requires Some?
    {
      value
    }
  }

  /** 1 for true, to count with. */
  function One(b: bool): nat {
    if b then 1 else 0
  }

  /** Adding what was subtracted modulo 2^64 gives the first operand back. */
  lemma WrapSubAdd(a: u64, b: int)
    ensures Wrap64(Wrap64(a - b) + b) == a
  {
    var q := (a - b) / TWO_64;
    assert a - b == q * TWO_64 + Wrap64(a - b);
    WrapShift(a, -q);
  }

  lemma WrapShift(a: u64, k: int)
    ensures Wrap64(a + k * TWO_64) == a
  {
    var r := Wrap64(a + k * TWO_64);
    var q := (a + k * TWO_64) / TWO_64;
    assert a + k * TWO_64 == q * TWO_64 + r;
    assert (q - k) * TWO_64 == a - r;
    assert -TWO_64 < a - r < TWO_64;
    assert q - k == 0;
  }

  lemma SliceOfSlice<T>(s: seq<T>, a: nat, b: nat, i: nat, j: nat)
    requires a <= b <= |s| && i <= j <= b - a
    ensures s[a..b][i..j] == s[a + i..a + j]
  {
    forall k | 0 <= k < j - i ensures s[a..b][i..j][k] == s[a + i..a + j][k] {
      assert s[a..b][i..j][k] == s[a..b][i + k] == s[a + (i + k)];
    }
  }

  /** `sub` stands in `s` at the position `p`. */
  predicate OccursAt<T(==)>(s: seq<T>, sub: seq<T>, p: nat) {
    p + |sub| <= |s| && s[p..p + |sub|] == sub
  }

  lemma JoinSlices<T>(s: seq<T>, a: nat, b: nat, e: nat)
    requires a <= b <= e <= |s|
    ensures s[a..b] + s[b..e] == s[a..e]
  {
  }

  lemma AppendSlices<T>(c: seq<T>, s: seq<T>, a: nat, b: nat, e: nat)
    requires a <= b <= e <= |s|
    ensures (c + s[a..b]) + s[b..e] == c + s[a..e]
  {
    JoinSlices(s, a, b, e);
  }

  lemma Regroup<T>(a: seq<T>, b: seq<T>, c: seq<T>)
    ensures (a + b) + c == a + (b + c)
  {
  }

  /** The pieces one after the other. */
  function Joined<T>(ps: seq<seq<T>>): seq<T> {
    if ps == [] then [] else ps[0] + Joined(ps[1..])
  }

  lemma {:induction false} JoinedLast<T>(ps: seq<seq<T>>, p: seq<T>)
    ensures Joined(ps + [p]) == Joined(ps) + p
  {
    if ps == [] {
      assert ([] + [p])[1..] == [];
    } else {
      assert (ps + [p])[1..] == ps[1..] + [p];
      JoinedLast(ps[1..], p);
      Regroup(ps[0], Joined(ps[1..]), p);
    }
  }

  lemma DivBounds(a: nat, d: nat)
    requires d > 0
    ensures (a / d) * d <= a < (a / d) * d + d
  {
  }

  lemma MulMono(a: nat, b: nat, c: nat)
    requires a <= b
    ensures a * c <= b * c
  {
  }
}
