/**
 The address cache of section 5.1 of RFC 3284: the nine address modes, the encoder's choice
 among them (`vc_encoder::_get_mode`), and the decoder's inverse.
 */
module AddrCache {
  import opened Bytes

  const NEAR_SIZE: nat := 4
  const SAME_SIZE: nat := 768
  const SELF: nat := 0
  const HERE: nat := 1
  const NEAR0: nat := 2
  const SAME0: nat := 6

  datatype Cache = Cache(near: seq<u64>, same: seq<u64>, index: u64) {
    predicate Valid() {
      |near| == NEAR_SIZE && |same| == SAME_SIZE
    }

    /** `vcdiff_update_addr`. */
    function Update(addr: u64): (c: Cache)
      requires Valid()
      ensures c.Valid()
    {
      Cache(near[index % NEAR_SIZE := addr], same[addr % SAME_SIZE := addr], Wrap64(index + 1))
    }
  }

  function Zeros(n: nat): (s: seq<u64>)
    ensures |s| == n && forall i :: 0 <= i < n ==> s[i] == 0
  {
    seq(n, _ => 0)
  }

  function EmptyCache(): (c: Cache)
    ensures c.Valid()
  {
    Cache(Zeros(NEAR_SIZE), Zeros(SAME_SIZE), 0)
  }

  // --- decoder -------------------------------------------------------------------------------

  /** The address that mode and encoded value stand for; `here` is the current position in the
      source window followed by the target window. */
  function Decode(c: Cache, mode: nat, sub: u64, here: u64): u64
    requires c.Valid() && mode < 9 && (mode >= SAME0 ==> sub < 256)
  {
    if mode == SELF then sub
    else if mode == HERE then Wrap64(here - sub)
    else if mode < SAME0 then Wrap64(sub + c.near[mode - NEAR0])
    else c.same[(mode - SAME0) * 256 + sub]
  }

  // --- encoder -------------------------------------------------------------------------------

  /** Entry `i` of `_self_hear_near_array`: what mode `i` subtracts from the address. */
  function Base(c: Cache, addr: u64, here: u64, i: nat): u64
    requires c.Valid() && i < SAME0
  {
    if i == SELF then 0
    else if i == HERE then Wrap64(addr * 2 - here)
    else c.near[i - NEAR0]
  }

  function SubAddr(c: Cache, addr: u64, here: u64, i: nat): u64
    requires c.Valid() && i < SAME0
  {
    Wrap64(addr - Base(c, addr, here, i))
  }

  /** The choice among the modes from `i` on, with the best of the modes before. */
  function PickFrom(c: Cache, addr: u64, here: u64, i: nat, minSub: u64, minMode: nat): (nat, u64)
    requires c.Valid() && i <= SAME0
    decreases SAME0 - i, |c.near|
  {
    if i < SAME0 then
      var sub := SubAddr(c, addr, here, i);
      if sub <= 127 then (i, sub)
      else if sub < minSub then PickFrom(c, addr, here, i + 1, sub, i)
      else PickFrom(c, addr, here, i + 1, minSub, minMode)
    else if c.same[addr % SAME_SIZE] == addr then
      ((addr % SAME_SIZE) / 256 + SAME0, (addr % SAME_SIZE) % 256)
    else
      (minMode, minSub)
  }

  function Pick(c: Cache, addr: u64, here: u64): (nat, u64)
    requires c.Valid()
  {
    PickFrom(c, addr, here, 0, addr, 0)
  }

  // --- the modes are inverted -------------------------------------------------------------------

  lemma HereInverts(addr: u64, here: u64)
    ensures Wrap64(here - Wrap64(addr - Wrap64(addr * 2 - here))) == addr
  {
    var b := Wrap64(addr * 2 - here);
    var q := (addr * 2 - here) / TWO_64;
    assert b == addr * 2 - here - q * TWO_64;
    var s := Wrap64(addr - b);
    var q' := (addr - b) / TWO_64;
    assert s == addr - b - q' * TWO_64;
    assert here - s == addr + (q' - q) * TWO_64;
    WrapShift(addr, q' - q);
  }

  lemma SubAddrInverts(c: Cache, addr: u64, here: u64, i: nat)
    requires c.Valid() && i < SAME0
    ensures Decode(c, i, SubAddr(c, addr, here, i), here) == addr
  {
    if i == HERE {
      HereInverts(addr, here);
    } else if i >= NEAR0 {
      WrapSubAdd(addr, c.near[i - NEAR0]);
    }
  }

  lemma {:induction false} PickFromInverts(c: Cache, addr: u64, here: u64, i: nat, minSub: u64, minMode: nat)
    requires c.Valid() && i <= SAME0 && minMode < SAME0
    requires minSub == SubAddr(c, addr, here, minMode)
    ensures var (mode, sub) := PickFrom(c, addr, here, i, minSub, minMode);
      mode < 9 && (mode >= SAME0 ==> sub < 256) && Decode(c, mode, sub, here) == addr
    decreases SAME0 - i
  {
    if i < SAME0 {
      var sub := SubAddr(c, addr, here, i);
      if sub <= 127 {
        SubAddrInverts(c, addr, here, i);
      } else if sub < minSub {
        PickFromInverts(c, addr, here, i + 1, sub, i);
      } else {
        PickFromInverts(c, addr, here, i + 1, minSub, minMode);
      }
    } else {
      SubAddrInverts(c, addr, here, minMode);
    }
  }

  /** Decoding the mode and value the encoder picked gives the address back, for every cache
      content, every address and every current position, in 64-bit wrapping arithmetic. */
  lemma PickInverts(c: Cache, addr: u64, here: u64)
    requires c.Valid()
    ensures var (mode, sub) := Pick(c, addr, here);
      mode < 9 && (mode >= SAME0 ==> sub < 256) && Decode(c, mode, sub, here) == addr
  {
    PickFromInverts(c, addr, here, 0, addr, 0);
  }

  /** What `Pick` prefers: the first of the six subtracting modes that needs one byte, else a
      SAME hit, else the smallest value (the first mode that has it). */
  predicate BestChoice(c: Cache, addr: u64, here: u64, mode: nat, sub: u64)
    requires c.Valid()
  {
    var oneByte := exists i: nat :: i < SAME0 && SubAddr(c, addr, here, i) <= 127;
    if oneByte then
      && mode < SAME0 && sub == SubAddr(c, addr, here, mode) && sub <= 127
      && forall j: nat :: j < mode ==> SubAddr(c, addr, here, j) > 127
    else if c.same[addr % SAME_SIZE] == addr then
      SAME0 <= mode < 9 && (mode - SAME0) * 256 + sub == addr % SAME_SIZE
    else
      && mode < SAME0 && sub == SubAddr(c, addr, here, mode)
      && (forall j: nat :: j < SAME0 ==> sub <= SubAddr(c, addr, here, j))
      && forall j: nat :: j < mode ==> sub < SubAddr(c, addr, here, j)
  }

  lemma {:induction false} PickFromIsBest(c: Cache, addr: u64, here: u64, i: nat, minSub: u64, minMode: nat)
    requires c.Valid() && i <= SAME0 && minMode < SAME0 && (if i == 0 then minMode == 0 else minMode < i)
    requires minSub == SubAddr(c, addr, here, minMode)
    requires forall j: nat :: j < i ==> SubAddr(c, addr, here, j) > 127
    requires forall j: nat :: j < i ==> minSub <= SubAddr(c, addr, here, j)
    requires forall j: nat :: j < minMode ==> minSub < SubAddr(c, addr, here, j)
    ensures var (mode, sub) := PickFrom(c, addr, here, i, minSub, minMode);
      BestChoice(c, addr, here, mode, sub)
    decreases SAME0 - i
  {
    if i < SAME0 {
      var sub := SubAddr(c, addr, here, i);
      if sub <= 127 {
      } else if sub < minSub {
        PickFromIsBest(c, addr, here, i + 1, sub, i);
      } else {
        PickFromIsBest(c, addr, here, i + 1, minSub, minMode);
      }
    }
  }

  lemma PickIsBest(c: Cache, addr: u64, here: u64)
    requires c.Valid()
    ensures var (mode, sub) := Pick(c, addr, here);
      BestChoice(c, addr, here, mode, sub)
  {
    PickFromIsBest(c, addr, here, 0, addr, 0);
  }

  // --- the update macro on arrays ---------------------------------------------------------------

  /** `vcdiff_update_addr` on the arrays of encoder or decoder; the encoder's near array starts
      at `nearOffset` in a longer array. */
  method UpdateAddr(sameArray: array<u64>, nearArray: array<u64>, nearOffset: nat, nearIndex: u64, addr: u64)
    returns (newIndex: u64)
    requires sameArray.Length == SAME_SIZE && nearArray.Length == nearOffset + NEAR_SIZE
    requires sameArray != nearArray
    modifies sameArray, nearArray
    ensures nearArray[..nearOffset] == old(nearArray[..nearOffset])
    ensures Cache(nearArray[nearOffset..], sameArray[..], newIndex)
         == old(Cache(nearArray[nearOffset..], sameArray[..], nearIndex).Update(addr))
  {
    sameArray[addr % SAME_SIZE] := addr;
    nearArray[nearOffset + nearIndex % NEAR_SIZE] := addr;
    newIndex := Wrap64(nearIndex + 1);
    assert nearArray[nearOffset..] == old(nearArray[nearOffset..])[nearIndex % NEAR_SIZE := addr];
  }
}
