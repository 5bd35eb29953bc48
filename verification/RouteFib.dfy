/** Agreement of the FIB with the RIB, and what a route lookup finds. */
module RouteFib {
  import opened Powers
  import opened Sequences
  import opened RouteState
  import opened RouteInv
  import opened RouteOps

  /** RIB and FIB hold the same prefix-to-slot map. */
  ghost predicate FibOk(s: State) {
    && (forall k <- s.rib :: ToFib(k) in s.fib && s.fib[ToFib(k)] == s.rib[k])
    && (forall f <- s.fib :: exists k <- s.rib :: ToFib(k) == f)
  }

  /** No other prefix of the RIB is the same prefix once masked. */
  ghost predicate NoClash(s: State, k: RibKey) {
    forall j <- s.rib :: ToFib(j) == ToFib(k) ==> j == k
  }

  /** An IPv4 key of at most 32 bits, with no bit set below its length. */
  predicate Canonical(k: RibKey) {
    k.family == AF_INET && k.len <= 32 && k.prefix % Pow2(32 - k.len) == 0
  }

  lemma CanonicalMask(k: RibKey)
    requires Canonical(k)
    ensures Mask32(k.prefix, k.len) == k.prefix
  {
    ClearNone(k.prefix, 32 - k.len);
  }

  /** Canonical keys never clash. */
  lemma CanonicalNoClash(s: State, k: RibKey)
    requires Canonical(k) && forall j <- s.rib :: Canonical(j)
    ensures NoClash(s, k)
  {
    forall j <- s.rib | ToFib(j) == ToFib(k) ensures j == k {
      CanonicalMask(j);
      CanonicalMask(k);
    }
  }

  /** The two keys name the same prefix: same VRF, same length, same leading bits. */
  ghost predicate SamePrefix(j: RibKey, k: RibKey) {
    j.vrf == k.vrf && j.len == k.len && (k.len <= 32 ==> Leading(j.prefix, k.len) == Leading(k.prefix, k.len))
  }

  /** Clashing is naming a prefix that another key of the RIB names too. */
  lemma NoClashMeans(s: State, k: RibKey)
    requires k.len <= 32
    ensures NoClash(s, k) <==> forall j <- s.rib | j != k :: !SamePrefix(j, k)
  {
    hide Mask32, Leading;
    forall j: RibKey | j.len == k.len
      ensures Mask32(j.prefix, k.len) == Mask32(k.prefix, k.len)
         <==> Leading(j.prefix, k.len) == Leading(k.prefix, k.len)
    {
      MaskLeading(j.prefix, k.prefix, k.len);
    }
  }

  lemma PresentNoClash(s: State, k: RibKey)
    requires SlotsOk(s) && FibOk(s) && k in s.rib
    ensures NoClash(s, k)
  {
    hide ToFib;
  }

  /** Pointing `k` at a slot no prefix uses keeps the agreement exactly when `k` clashes with no other prefix. */
  lemma PutFib(s: State, s': State, k: RibKey, id: nat)
    requires FibOk(s) && (forall j <- s.rib :: s.rib[j] != id)
    requires s'.rib == s.rib[k := id] && s'.fib == s.fib[ToFib(k) := id]
    ensures FibOk(s') <==> NoClash(s, k)
  {
    hide ToFib;
    if FibOk(s') {
      forall j <- s.rib | ToFib(j) == ToFib(k) ensures j == k {
        assert j in s'.rib && s'.fib[ToFib(j)] == id;
      }
    }
    if NoClash(s, k) {
      forall f <- s'.fib ensures exists j <- s'.rib :: ToFib(j) == f {
        if f == ToFib(k) {
          assert k in s'.rib;
        } else {
          var j :| j in s.rib && ToFib(j) == f;
          assert j in s'.rib;
        }
      }
    }
  }

  /** A successful insert keeps the agreement exactly when the prefix clashes with no other one. */
  lemma InsertedFib(s: State, k: RibKey, n: NhKey, t: RibType, p: Ptr, id: nat, nhOid: nat, neighOid: nat)
    requires Core(s, {}) && CanInsert(s, k, n, t, p, id) && FibOk(s)
    ensures FibOk(Inserted(s, k, n, t, p, id, nhOid, neighOid)) <==> NoClash(s, k)
  {
    hide TableOk, RefsOk, CountsOk, NeighBase, ToFib, Accepts, Extended, ResOk, FibOk, NoClash, Acquire;
    PutFib(s, Inserted(s, k, n, t, p, id, nhOid, neighOid), k, id);
  }

  lemma WithdrawFib(s: State, s': State, k: RibKey)
    requires SlotsOk(s) && FibOk(s) && k in s.rib && s'.rib == s.rib - {k} && s'.fib == s.fib - {ToFib(k)}
    ensures FibOk(s')
  {
    hide ToFib;
    PresentNoClash(s, k);
    forall f <- s'.fib ensures exists j <- s'.rib :: ToFib(j) == f {
      var j :| j in s.rib && ToFib(j) == f;
      assert j in s'.rib;
    }
  }

  lemma RemovedFib(s: State, k: RibKey, i: nat, id: nat)
    requires Core(s, {}) && CanRemove(s, k, i, id) && FibOk(s)
    ensures FibOk(Removed(s, k, i, id))
  {
    hide TableOk, RefsOk, CountsOk, NeighBase, ToFib, FibOk, NoClash, Release, Reduced, ResOk;
    UnlinkedCore(s, k, i, id);
    var s' := Removed(s, k, i, id);
    if |Paths(s, k)| == 1 {
      WithdrawFib(s, s', k);
    } else {
      PresentNoClash(s, k);
      PutFib(s, s', k, id);
    }
  }

  lemma DroppedFib(s: State, k: RibKey)
    requires Core(s, {}) && k in s.rib && FibOk(s)
    ensures FibOk(Dropped(s, k))
  {
    WithdrawFib(s, Dropped(s, k), k);
  }

  lemma {:induction false} DropAllFib(s: State, ks: seq<RibKey>)
    requires Core(s, {}) && Distinct(ks) && Elems(ks) <= s.rib.Keys && FibOk(s)
    ensures FibOk(DropAll(s, ks))
    decreases |ks|
  {
    hide SlotsOk, RoutesOk, TableOk, RefsOk, CountsOk, NeighBase, Dropped, FibOk;
    if ks != [] {
      InitElems(ks);
      DropAllFib(s, ks[..|ks| - 1]);
      DroppedFib(DropAll(s, ks[..|ks| - 1]), ks[|ks| - 1]);
    }
  }

  // ---------------------------------------------------------------------------------------------
  // What the FIB keeps even if prefixes clash

  /** Every FIB entry is the masked form of some prefix of the RIB and names the slot of that prefix. */
  ghost predicate FibSafe(s: State) {
    forall f <- s.fib :: exists k <- s.rib :: ToFib(k) == f && s.rib[k] == s.fib[f]
  }

  lemma OkIsSafe(s: State)
    requires FibOk(s)
    ensures FibSafe(s)
  {
    hide ToFib;
    forall f <- s.fib ensures exists k <- s.rib :: ToFib(k) == f && s.rib[k] == s.fib[f] {
      var k :| k in s.rib && ToFib(k) == f;
    }
  }

  lemma PutSafe(s: State, s': State, k: RibKey, id: nat)
    requires FibSafe(s) && s'.rib == s.rib[k := id] && s'.fib == s.fib[ToFib(k) := id]
    ensures FibSafe(s')
  {
    hide ToFib;
    forall f <- s'.fib ensures exists j <- s'.rib :: ToFib(j) == f && s'.rib[j] == s'.fib[f] {
      if f == ToFib(k) {
        assert k in s'.rib;
      } else {
        var j :| j in s.rib && ToFib(j) == f && s.rib[j] == s.fib[f];
        assert j in s'.rib;
      }
    }
  }

  lemma WithdrawSafe(s: State, s': State, k: RibKey)
    requires FibSafe(s) && s'.rib == s.rib - {k} && s'.fib == s.fib - {ToFib(k)}
    ensures FibSafe(s')
  {
    hide ToFib;
    forall f <- s'.fib ensures exists j <- s'.rib :: ToFib(j) == f && s'.rib[j] == s'.fib[f] {
      var j :| j in s.rib && ToFib(j) == f && s.rib[j] == s.fib[f];
      assert j in s'.rib;
    }
  }

  lemma SameSafe(s: State, s': State)
    requires FibSafe(s) && s'.rib == s.rib && s'.fib == s.fib
    ensures FibSafe(s')
  {
    hide ToFib;
  }

  lemma InsertedSafe(s: State, k: RibKey, n: NhKey, t: RibType, p: Ptr, id: nat, nhOid: nat, neighOid: nat)
    requires Core(s, {}) && CanInsert(s, k, n, t, p, id) && FibSafe(s)
    ensures FibSafe(Inserted(s, k, n, t, p, id, nhOid, neighOid))
  {
    hide SlotsOk, TableOk, RefsOk, CountsOk, NeighBase, ToFib, Accepts, Extended, ResOk, FibSafe, Acquire;
    PutSafe(s, Inserted(s, k, n, t, p, id, nhOid, neighOid), k, id);
  }

  lemma RemovedSafe(s: State, k: RibKey, i: nat, id: nat)
    requires Core(s, {}) && CanRemove(s, k, i, id) && FibSafe(s)
    ensures FibSafe(Removed(s, k, i, id))
  {
    hide SlotsOk, TableOk, RefsOk, NeighBase, ToFib, FibSafe, Release, Reduced, ResOk;
    UnlinkedCore(s, k, i, id);
    var s' := Removed(s, k, i, id);
    if |Paths(s, k)| == 1 {
      WithdrawSafe(s, s', k);
    } else {
      PutSafe(s, s', k, id);
    }
  }

  lemma {:induction false} DropAllSafe(s: State, ks: seq<RibKey>)
    requires Core(s, {}) && Distinct(ks) && Elems(ks) <= s.rib.Keys && FibSafe(s)
    ensures FibSafe(DropAll(s, ks))
    decreases |ks|
  {
    hide SlotsOk, RoutesOk, TableOk, RefsOk, CountsOk, NeighBase, FibSafe;
    if ks != [] {
      InitElems(ks);
      var s1, k := DropAll(s, ks[..|ks| - 1]), ks[|ks| - 1];
      DropAllSafe(s, ks[..|ks| - 1]);
      hide Dropped;
      WithdrawSafe(s1, Dropped(s1, k), k);
    }
  }

  ghost function FibKeys(ks: seq<RibKey>): set<FibKey> {
    set k | k in ks :: ToFib(k)
  }

  lemma {:induction false} DropAllEntries(s: State, ks: seq<RibKey>)
    requires Core(s, {}) && Distinct(ks) && Elems(ks) <= s.rib.Keys
    ensures DropAll(s, ks).fib == s.fib - FibKeys(ks)
    decreases |ks|
  {
    hide SlotsOk, RoutesOk, TableOk, RefsOk, CountsOk, NeighBase, ToFib;
    if ks != [] {
      InitElems(ks);
      DropAllEntries(s, ks[..|ks| - 1]);
      hide Dropped;
      LastKey(ks);
    }
  }

  lemma LastKey(ks: seq<RibKey>)
    requires ks != []
    ensures FibKeys(ks) == FibKeys(ks[..|ks| - 1]) + {ToFib(ks[|ks| - 1])}
  {
    hide ToFib;
    assert ks == ks[..|ks| - 1] + [ks[|ks| - 1]];
  }

  // ---------------------------------------------------------------------------------------------
  // Lookup

  /** The FIB's longest match from length `len` downwards; its default next hop is the blackhole slot. */
  function LookupFrom(fib: map<FibKey, nat>, v: Vrf, addr: nat, len: nat): nat {
    if FibKey(v, len, Mask32(addr, len)) in fib then fib[FibKey(v, len, Mask32(addr, len))]
    else if len == 0 then BLACKHOLE
    else LookupFrom(fib, v, addr, len - 1)
  }

  /** The prefix is of the VRF and has the leading bits of the address. */
  ghost predicate Covers(k: RibKey, v: Vrf, addr: nat) {
    k.vrf == v && k.len <= 32 && Leading(k.prefix, k.len) == Leading(addr, k.len)
  }

  lemma CoversFib(k: RibKey, v: Vrf, addr: nat)
    requires k.len <= 32
    ensures Covers(k, v, addr) <==> ToFib(k) == FibKey(v, k.len, Mask32(addr, k.len))
  {
    hide Mask32, Leading;
    MaskLeading(k.prefix, addr, k.len);
  }

  ghost predicate Longest(s: State, k: RibKey, v: Vrf, addr: nat) {
    k in s.rib && Covers(k, v, addr) && forall j <- s.rib | Covers(j, v, addr) :: j.len <= k.len
  }

  /** A canonical prefix covers the block of addresses that starts at it. */
  lemma CanonicalCovers(k: RibKey, v: Vrf, addr: nat)
    requires Canonical(k)
    ensures Covers(k, v, addr) <==> k.vrf == v && k.prefix <= addr < k.prefix + Pow2(32 - k.len)
  {
    var q := Pow2(32 - k.len);
    var d := k.prefix / q;
    assert k.prefix == d * q;
    Block(addr, q, d);
  }

  lemma FibLength(k: RibKey)
    ensures ToFib(k).len == k.len
  {
  }

  lemma {:induction false} LookupFromSpec(s: State, v: Vrf, addr: nat, len: nat)
    requires FibOk(s) && SlotsOk(s) && len <= 32
    requires forall j <- s.rib | Covers(j, v, addr) :: j.len <= len
    ensures var id := LookupFrom(s.fib, v, addr, len);
            if id == BLACKHOLE then forall j <- s.rib :: !Covers(j, v, addr)
            else exists k :: Longest(s, k, v, addr) && s.rib[k] == id
  {
    hide Mask32, Leading, Covers, ToFib;
    var f := FibKey(v, len, Mask32(addr, len));
    if f in s.fib {
      var k :| k in s.rib && ToFib(k) == f;
      assert k.len == len by { FibLength(k); }
      CoversFib(k, v, addr);
      assert Longest(s, k, v, addr);
    } else {
      forall j <- s.rib | Covers(j, v, addr) ensures j.len < len {
        CoversFib(j, v, addr);
        assert ToFib(j) in s.fib;
      }
      if len > 0 {
        LookupFromSpec(s, v, addr, len - 1);
      }
    }
  }

  lemma {:induction false} LookupFromSafe(s: State, v: Vrf, addr: nat, len: nat)
    requires FibSafe(s) && len <= 32
    ensures var id := LookupFrom(s.fib, v, addr, len);
            id == BLACKHOLE || exists k :: k in s.rib && Covers(k, v, addr) && s.rib[k] == id
  {
    hide Mask32, Covers, ToFib;
    var f := FibKey(v, len, Mask32(addr, len));
    if f in s.fib {
      var k :| k in s.rib && ToFib(k) == f && s.rib[k] == s.fib[f];
      assert k.len == len by { FibLength(k); }
      CoversFib(k, v, addr);
    } else if len > 0 {
      LookupFromSafe(s, v, addr, len - 1);
    }
  }

  /** For every address the lookup gives a used slot: the blackhole slot, which alone rejects, or the slot of a
      route that matches, with a non-empty path list. As long as no prefixes clash it is the longest matching
      route, and the blackhole slot only if no route matches. */
  lemma LookupCorrect(s: State, v: Vrf, addr: nat)
    requires Core(s, {}) && FibSafe(s)
    ensures var id := LookupFrom(s.fib, v, addr, 32);
            && id in s.res
            && (s.res[id].flags.reject <==> id == BLACKHOLE)
            && (id != BLACKHOLE ==>
                  s.res[id].mpath != [] && exists k :: k in s.rib && Covers(k, v, addr) && s.rib[k] == id)
            && (FibOk(s) ==>
                  && (id == BLACKHOLE <==> forall j <- s.rib :: !Covers(j, v, addr))
                  && (id != BLACKHOLE ==> exists k :: Longest(s, k, v, addr) && s.rib[k] == id))
  {
    hide LookupFrom, TableOk, RefsOk, NeighBase, FibOk, FibSafe, Covers;
    LookupFromSafe(s, v, addr, 32);
    var id := LookupFrom(s.fib, v, addr, 32);
    if id != BLACKHOLE {
      var k :| k in s.rib && Covers(k, v, addr) && s.rib[k] == id;
      assert ResOk(s.res[s.rib[k]], s.heap);
    }
    if FibOk(s) {
      LookupFromSpec(s, v, addr, 32);
    }
  }

  /** `fib_res_select_mpath`: the remainder is taken on 32-bit unsigned values. */
  function SelectMpath(cnt: nat, hash: int): (sel: nat)
    ensures cnt > 0 ==> sel < cnt
    ensures cnt > 0 && 0 <= hash < 0x8000_0000 ==> sel == hash % cnt
    ensures cnt > 0 && -0x8000_0000 <= hash < 0 ==> sel == (0x1_0000_0000 + hash) % cnt
    ensures cnt == 0 ==> sel == 0
  {
    if cnt > 0 then (hash % 0x1_0000_0000) % cnt else 0
  }

  /** Every path of a list is selected by some hash, and equally often over each block of hashes. */
  lemma SelectEvery(cnt: nat, q: nat, i: nat)
    requires i < cnt && q * cnt + i < 0x8000_0000
    ensures SelectMpath(cnt, q * cnt + i) == i
  {
    DivModUnique(q * cnt + i, cnt, q, i);
  }
}
