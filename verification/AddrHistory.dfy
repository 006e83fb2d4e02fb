/**
 The address cache in terms of the addresses of the COPYs before: what its slots hold, what the modes
 mean to the decoder, and when the encoder finds an address again (section 5.1 of RFC 3284).
 */
module AddrHistory {
  import opened Bytes
  import opened AddrCache
  import opened InstCoder
  import opened VcDecoder
  import opened WindowRoundTrip
  import CodeTable

  /** The cache behind COPYs from these addresses. */
  function After(addrs: seq<u64>): (c: Cache)
    ensures c.Valid()
  {
    if addrs == [] then EmptyCache() else After(addrs[..|addrs| - 1]).Update(addrs[|addrs| - 1])
  }

  predicate InSlot(i: int, k: nat) {
    i % 4 == k
  }

  predicate InEntry(addr: u64, e: nat) {
    addr % 768 == e
  }

  /** The latest address whose number is `k` modulo 4; 0 when there is none. */
  ghost predicate NearIs(addrs: seq<u64>, k: nat, v: u64) {
    || (exists i :: 0 <= i < |addrs| && InSlot(i, k) && addrs[i] == v && forall j :: i < j < |addrs| ==> !InSlot(j, k))
    || (v == 0 && forall j :: 0 <= j < |addrs| ==> !InSlot(j, k))
  }

  /** The latest address that is `e` modulo 768; 0 when there is none. */
  ghost predicate SameIs(addrs: seq<u64>, e: nat, v: u64) {
    || (exists i :: 0 <= i < |addrs| && InEntry(addrs[i], e) && addrs[i] == v
                    && forall j :: i < j < |addrs| ==> !InEntry(addrs[j], e))
    || (v == 0 && forall j :: 0 <= j < |addrs| ==> !InEntry(addrs[j], e))
  }

  lemma NearNext(addrs: seq<u64>, addr: u64, k: nat, v: u64)
    requires if InSlot(|addrs|, k) then v == addr else NearIs(addrs, k, v)
    ensures NearIs(addrs + [addr], k, v)
  {
    var all := addrs + [addr];
    if InSlot(|addrs|, k) {
      assert all[|addrs|] == addr;
    } else if i :| 0 <= i < |addrs| && InSlot(i, k) && addrs[i] == v && forall j :: i < j < |addrs| ==> !InSlot(j, k) {
      assert all[i] == v;
    }
  }

  lemma SameNext(addrs: seq<u64>, addr: u64, e: nat, v: u64)
    requires if InEntry(addr, e) then v == addr else SameIs(addrs, e, v)
    ensures SameIs(addrs + [addr], e, v)
  {
    var all := addrs + [addr];
    if InEntry(addr, e) {
      assert all[|addrs|] == addr;
    } else if i :| 0 <= i < |addrs| && InEntry(addrs[i], e) && addrs[i] == v
                   && forall j :: i < j < |addrs| ==> !InEntry(addrs[j], e) {
      assert all[i] == v;
      assert forall j :: i < j < |all| ==> !InEntry(all[j], e);
    } else {
      assert forall j :: 0 <= j < |all| ==> !InEntry(all[j], e);
    }
  }

  /** What the cache holds after any list of addresses. */
  lemma {:induction false} CacheHolds(addrs: seq<u64>)
    ensures After(addrs).index == |addrs| % TWO_64
    ensures forall k :: 0 <= k < 4 ==> NearIs(addrs, k, After(addrs).near[k])
    ensures forall e :: 0 <= e < 768 ==> SameIs(addrs, e, After(addrs).same[e])
  {
    if addrs != [] {
      var n := |addrs| - 1;
      CacheHolds(addrs[..n]);
      assert addrs == addrs[..n] + [addrs[n]];
      hide *;
      HoldsNext(addrs[..n], addrs[n]);
    }
  }

  lemma {:induction false} HoldsNext(addrs: seq<u64>, addr: u64)
    requires After(addrs).index == |addrs| % TWO_64
    requires forall k :: 0 <= k < 4 ==> NearIs(addrs, k, After(addrs).near[k])
    requires forall e :: 0 <= e < 768 ==> SameIs(addrs, e, After(addrs).same[e])
    ensures var all := addrs + [addr];
      && After(all).index == |all| % TWO_64
      && (forall k :: 0 <= k < 4 ==> NearIs(all, k, After(all).near[k]))
      && (forall e :: 0 <= e < 768 ==> SameIs(all, e, After(all).same[e]))
  {
    hide After, NearIs, SameIs;
    AfterNext(addrs, addr);
    NextIndex(|addrs|);
    var all := addrs + [addr];
    forall k | 0 <= k < 4 ensures NearIs(all, k, After(all).near[k]) {
      NearNext(addrs, addr, k, After(all).near[k]);
    }
    forall e | 0 <= e < 768 ensures SameIs(all, e, After(all).same[e]) {
      SameNext(addrs, addr, e, After(all).same[e]);
    }
  }

  lemma NextIndex(n: nat)
    ensures Wrap64(n % TWO_64 + 1) == (n + 1) % TWO_64 && (n % TWO_64) % 4 == n % 4
  {
    NextModulo(n);
    FourDivides(n);
  }

  lemma NextModulo(n: nat)
    ensures Wrap64(n % TWO_64 + 1) == (n + 1) % TWO_64
  {
  }

  lemma FourDivides(n: nat)
    ensures (n % TWO_64) % 4 == n % 4
  {
    var k := 0x4000_0000_0000_0000 * (n / TWO_64);
    assert n == 4 * k + n % TWO_64;
    ModuloFour(k, n % TWO_64);
  }

  lemma ModuloFour(k: nat, r: nat)
    ensures (4 * k + r) % 4 == r % 4
  {
    var q := r / 4;
    assert 4 * k + r == 4 * (k + q) + r % 4;
  }

  // --- the decoder -----------------------------------------------------------------------------------

  /** The address that a mode and an encoded value stand for behind COPYs from `addrs`. */
  ghost predicate Means(addrs: seq<u64>, mode: nat, sub: u64, here: u64, addr: u64) {
    if mode == 0 then addr == sub
    else if mode == 1 then Wrap64(addr + sub) == here
    else if mode < 6 then
      var k := mode - 2;
      exists v: u64 :: NearIs(addrs, k, v) && addr == Wrap64(v + sub)
    else SameIs(addrs, (mode - 6) * 256 + sub, addr)
  }

  lemma {:induction false} DecodeMeans(addrs: seq<u64>, mode: nat, sub: u64, here: u64)
    requires mode < 9 && (mode >= 6 ==> sub < 256)
    ensures Means(addrs, mode, sub, here, Decode(After(addrs), mode, sub, here))
  {
    hide NearIs, SameIs, After;
    CacheHolds(addrs);
    if mode == 1 {
      WrapSubAdd(here, sub);
    } else if 2 <= mode < 6 {
      assert NearIs(addrs, mode - 2, After(addrs).near[mode - 2]);
    }
  }

  lemma AfterNext(addrs: seq<u64>, addr: u64)
    ensures After(addrs + [addr]) == After(addrs).Update(addr)
  {
    var all := addrs + [addr];
    assert all[..|all| - 1] == addrs;
  }

  /** A COPY behind COPYs from `addrs` reads the encoded value and copies from the address it means. */
  lemma {:induction false} CopySeen(w: Window, op: Op, st: State, addrs: seq<u64>) returns (addr: u64)
    requires w.Valid() && st.Valid() && CodeTable.COPY <= op.kind < CodeTable.COPY + CodeTable.MODES
    requires st.cache == After(addrs) && DoCopy(w, op, st).Some?
    ensures var r := DoCopy(w, op, st).value;
      && r.cache == After(addrs + [addr])
      && TakeAddr(st, op.kind - CodeTable.COPY).Some?
      && Means(addrs, op.kind - CodeTable.COPY, TakeAddr(st, op.kind - CodeTable.COPY).value.0,
               Wrap64(w.srcLen + st.here), addr)
      && FastCopy(w, st.out, st.here, addr, op.size) == Some(r.out)
  {
    hide FastCopy, Decode, ReadAddr, Means, After;
    var mode := op.kind - CodeTable.COPY;
    var sub := TakeAddr(st, mode).value.0;
    addr := Decode(st.cache, mode, sub, Wrap64(w.srcLen + st.here));
    DecodeMeans(addrs, mode, sub, Wrap64(w.srcLen + st.here));
    AfterNext(addrs, addr);
  }

  function CopyCount(ops: seq<Op>): nat {
    if ops == [] then 0 else One(ops[0].kind >= CodeTable.COPY) + CopyCount(ops[1..])
  }

  /** In every run the cache stays that of the addresses seen, one for each COPY. */
  lemma {:induction false} RunSeen(w: Window, ops: seq<Op>, st: State, addrs: seq<u64>) returns (more: seq<u64>)
    requires w.Valid() && st.Valid() && ValidOps(ops) && st.cache == After(addrs) && ExecOps(w, ops, st).Some?
    ensures |more| == CopyCount(ops) && ExecOps(w, ops, st).value.cache == After(addrs + more)
  {
    hide FastCopy, Decode, ReadAddr, After, Means, TakeData, TakeAddr;
    if ops == [] {
      more := [];
      assert addrs + [] == addrs;
    } else {
      var st1 := DoOp(w, ops[0], st).value;
      if ops[0].kind >= CodeTable.COPY {
        var addr := CopySeen(w, ops[0], st, addrs);
        var rest := RunSeen(w, ops[1..], st1, addrs + [addr]);
        more := [addr] + rest;
        Regroup(addrs, [addr], rest);
      } else {
        OthersKeepCache(w, ops[0], st);
        more := RunSeen(w, ops[1..], st1, addrs);
      }
    }
  }

  lemma OthersKeepCache(w: Window, op: Op, st: State)
    requires w.Valid() && st.Valid() && op.kind < CodeTable.COPY && DoOp(w, op, st).Some?
    ensures DoOp(w, op, st).value.cache == st.cache
  {
  }

  // --- the encoder -----------------------------------------------------------------------------------

  /** The candidate of mode `i` below 6: the address itself, its distance back from `here`, and the
      distances behind the four near addresses. */
  ghost predicate Candidate(addrs: seq<u64>, addr: u64, here: u64, i: nat, sub: u64) {
    if i == 0 then sub == addr
    else if i == 1 then sub == Wrap64(here - addr)
    else
      var k := i - 2;
      exists v: u64 :: NearIs(addrs, k, v) && sub == Wrap64(addr - v)
  }

  lemma {:induction false} SubAddrIsCandidate(addrs: seq<u64>, addr: u64, here: u64, i: nat)
    requires i < 6
    ensures Candidate(addrs, addr, here, i, SubAddr(After(addrs), addr, here, i))
  {
    hide NearIs, SameIs, After;
    CacheHolds(addrs);
    if i == 1 {
      HereCandidate(addr, here);
    } else if i >= 2 {
      assert NearIs(addrs, i - 2, After(addrs).near[i - 2]);
    }
  }

  lemma HereCandidate(addr: u64, here: u64)
    ensures Wrap64(addr - Wrap64(addr * 2 - here)) == Wrap64(here - addr)
  {
    var q := (addr * 2 - here) / TWO_64;
    assert Wrap64(addr * 2 - here) == addr * 2 - here - q * TWO_64;
    var r := (here - addr) / TWO_64;
    WrapShift(Wrap64(here - addr), r + q);
    assert addr - Wrap64(addr * 2 - here) == Wrap64(here - addr) + (r + q) * TWO_64;
  }

  lemma NearUnique(addrs: seq<u64>, k: nat, v: u64, u: u64)
    requires NearIs(addrs, k, v) && NearIs(addrs, k, u)
    ensures v == u
  {
  }

  lemma SameUnique(addrs: seq<u64>, e: nat, v: u64, u: u64)
    requires SameIs(addrs, e, v) && SameIs(addrs, e, u)
    ensures v == u
  {
  }

  /** There is one candidate of each mode. */
  lemma {:induction false} CandidateUnique(addrs: seq<u64>, addr: u64, here: u64, i: nat, s: u64, t: u64)
    requires Candidate(addrs, addr, here, i, s) && Candidate(addrs, addr, here, i, t)
    ensures s == t
  {
    hide NearIs;
    if i >= 2 {
      var k := i - 2;
      var v: u64 :| NearIs(addrs, k, v) && s == Wrap64(addr - v);
      var u: u64 :| NearIs(addrs, k, u) && t == Wrap64(addr - u);
      NearUnique(addrs, k, v, u);
    }
  }

  /** The encoder's choice behind COPYs from `addrs`: the first candidate below 128; without one the
      entry among 768 addresses, exactly when the latest address with the same remainder is the same
      address; else the first of the least candidates. */
  ghost predicate Chosen(addrs: seq<u64>, addr: u64, here: u64, mode: nat, sub: u64) {
    if mode >= 6 then
      && (mode - 6) * 256 + sub == addr % 768 && SameIs(addrs, addr % 768, addr)
      && forall i: nat, s: u64 :: i < 6 && Candidate(addrs, addr, here, i, s) ==> s > 127
    else
      && Candidate(addrs, addr, here, mode, sub)
      && (sub <= 127 ==> forall i: nat, s: u64 :: i < mode && Candidate(addrs, addr, here, i, s) ==> s > 127)
      && (sub > 127 ==>
            && !SameIs(addrs, addr % 768, addr)
            && (forall i: nat, s: u64 :: i < 6 && Candidate(addrs, addr, here, i, s) ==> s >= sub)
            && (forall i: nat, s: u64 :: i < mode && Candidate(addrs, addr, here, i, s) ==> s > sub))
  }

  lemma {:induction false} PickSeen(addrs: seq<u64>, addr: u64, here: u64)
    ensures var (mode, sub) := Pick(After(addrs), addr, here);
      Chosen(addrs, addr, here, mode, sub)
  {
    hide After, NearIs, SameIs, Candidate, SubAddr, Pick;
    CacheHolds(addrs);
    PickIsBest(After(addrs), addr, here);
    var (mode, sub) := Pick(After(addrs), addr, here);
    forall i: nat | i < 6 ensures Candidate(addrs, addr, here, i, SubAddr(After(addrs), addr, here, i)) {
      SubAddrIsCandidate(addrs, addr, here, i);
    }
    forall i: nat, s: u64 | i < 6 && Candidate(addrs, addr, here, i, s)
      ensures s == SubAddr(After(addrs), addr, here, i)
    {
      CandidateUnique(addrs, addr, here, i, s, SubAddr(After(addrs), addr, here, i));
    }
    if SameIs(addrs, addr % 768, addr) {
      SameUnique(addrs, addr % 768, addr, After(addrs).same[addr % 768]);
    }
  }
}
