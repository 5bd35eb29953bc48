/** Neighbour reference counting.

    Next-hop keys carry no VRF while neighbours do, so the counting is exact only as long as no next hop
    is used from two VRFs; an insert preserves it exactly when it respects that. */
module RouteNeigh {
  import opened Sequences
  import opened RouteState
  import opened RouteInv
  import opened RouteOps

  /** Some prefix of VRF `v`, or the operation running in VRF `hv`, refers to `p`. */
  ghost predicate UsedBy(s: State, held: set<Ptr>, hv: Vrf, p: Ptr, v: Vrf)
    requires InRange(s)
  {
    (exists k <- s.rib :: k.vrf == v && p in Paths(s, k)) || (v == hv && p in held)
  }

  /** The live next hops of VRF `v` with the non-zero gateway `g`. */
  ghost function Live(s: State, held: set<Ptr>, hv: Vrf, v: Vrf, g: nat): set<Ptr>
    requires InRange(s)
  {
    set p | p in s.heap && g != 0 && s.heap[p].key.gateway == g && UsedBy(s, held, hv, p, v)
  }

  ghost predicate RefcntOk(s: State, held: set<Ptr>, hv: Vrf)
    requires InRange(s)
  {
    forall nk <- s.nb.tbl ::
      s.nb.tbl[nk].refcnt == |Live(s, held, hv, nk.vrf, nk.gateway)| + (if s.nb.tbl[nk].isStatic then 1 else 0)
  }

  ghost predicate ResolvedOk(s: State, held: set<Ptr>, hv: Vrf)
    requires InRange(s)
  {
    forall p <- s.heap, v: Vrf | s.heap[p].key.gateway != 0 && UsedBy(s, held, hv, p, v) ::
      var nk := NeighKey(v, s.heap[p].key.gateway);
      nk in s.nb.tbl && s.nb.tbl[nk].oid == s.heap[p].neighOid
  }

  ghost function FastOf(n: NeighTable, v: Vrf): set<NeighKey> {
    set nk | nk in n.tbl && nk.vrf == v && n.tbl[nk].fastArp
  }

  /** Per VRF, `neigh_cnt` is the number of entries that a next hop created. */
  ghost predicate CntOk(n: NeighTable) {
    && (forall v <- n.cnt :: n.cnt[v] == |FastOf(n, v)|)
    && (forall nk <- n.tbl :: n.tbl[nk].fastArp || n.tbl[nk].isStatic)
  }

  ghost predicate OneVrf(s: State, held: set<Ptr>, hv: Vrf)
    requires InRange(s)
  {
    forall p <- s.heap, v: Vrf, w: Vrf |
      s.heap[p].key.gateway != 0 && UsedBy(s, held, hv, p, v) && UsedBy(s, held, hv, p, w) :: v == w
  }

  ghost predicate Counted(s: State, held: set<Ptr>, hv: Vrf)
    requires InRange(s)
  {
    RefcntOk(s, held, hv) && ResolvedOk(s, held, hv)
  }

  ghost predicate NeighOk(s: State, held: set<Ptr>, hv: Vrf)
    requires InRange(s)
  {
    Counted(s, held, hv) && CntOk(s.nb) && OneVrf(s, held, hv)
  }

  /** With no held references the VRF of the running operation does not matter. */
  lemma AnyVrf(s: State, hv: Vrf, hv': Vrf)
    requires InRange(s) && NeighOk(s, {}, hv)
    ensures NeighOk(s, {}, hv')
  {
    forall p: Ptr, v: Vrf ensures UsedBy(s, {}, hv, p, v) == UsedBy(s, {}, hv', p, v) {}
    forall v: Vrf, g: nat ensures Live(s, {}, hv, v, g) == Live(s, {}, hv', v, g) {}
  }

  // ---------------------------------------------------------------------------------------------
  // Moving references between a prefix and the running operation

  lemma MovedUsedBy(s: State, s': State, k: RibKey, held: set<Ptr>, held': set<Ptr>, p: Ptr, v: Vrf)
    requires OnlyAt(s, s', k) && Conserved(OldPaths(s, k), held, OldPaths(s', k), held')
    ensures UsedBy(s, held, k.vrf, p, v) == UsedBy(s', held', k.vrf, p, v)
  {
    if j :| j in s.rib && j.vrf == v && p in Paths(s, j) && j != k {
      assert j in s'.rib && p in Paths(s', j);
    } else {
      assert (p in OldPaths(s, k) || p in held) <==> (p in OldPaths(s', k) || p in held');
      assert UsedBy(s, held, k.vrf, p, v) <==> v == k.vrf && (p in OldPaths(s, k) || p in held);
      assert UsedBy(s', held', k.vrf, p, v) <==> v == k.vrf && (p in OldPaths(s', k) || p in held');
    }
  }

  lemma SameNeigh(s: State, s': State, held: set<Ptr>, held': set<Ptr>, hv: Vrf)
    requires InRange(s) && InRange(s') && s'.nb == s.nb && s'.heap.Keys == s.heap.Keys
    requires forall p <- s.heap :: s'.heap[p].key == s.heap[p].key && s'.heap[p].neighOid == s.heap[p].neighOid
    requires forall p: Ptr, v: Vrf | p in s.heap && s.heap[p].key.gateway != 0 ::
               UsedBy(s, held, hv, p, v) == UsedBy(s', held', hv, p, v)
    ensures NeighOk(s, held, hv) ==> NeighOk(s', held', hv)
  {
    hide UsedBy;
    forall v: Vrf, g: nat ensures Live(s, held, hv, v, g) == Live(s', held', hv, v, g) {}
  }

  lemma MovedNeigh(s: State, s': State, k: RibKey, held: set<Ptr>, held': set<Ptr>)
    requires OnlyAt(s, s', k) && s'.nb == s.nb && Conserved(OldPaths(s, k), held, OldPaths(s', k), held')
    requires NeighOk(s, held, k.vrf)
    ensures NeighOk(s', held', k.vrf)
  {
    hide UsedBy, NeighOk, Conserved;
    forall p: Ptr, v: Vrf ensures UsedBy(s, held, k.vrf, p, v) == UsedBy(s', held', k.vrf, p, v) {
      MovedUsedBy(s, s', k, held, held', p, v);
    }
    SameNeigh(s, s', held, held', k.vrf);
  }

  // ---------------------------------------------------------------------------------------------
  // Taking and giving back a reference

  /** The next hop of key `n` is not live, or is live in VRF `v` only, or has no gateway. */
  ghost predicate Mine(s: State, v: Vrf, n: NhKey)
    requires InRange(s)
  {
    n.gateway != 0 && n in s.nhops ==> forall j <- s.rib | s.nhops[n] in Paths(s, j) :: j.vrf == v
  }

  lemma AcquireLive(s: State, v: Vrf, n: NhKey, p: Ptr, nhOid: nat, neighOid: nat)
    requires Core(s, {}) && v in s.nb.cnt && Designates(s, n, p) && n in s.nhops && Mine(s, v, n) && NeighOk(s, {}, v)
    ensures NeighOk(Acquire(s, v, n, p, nhOid, neighOid), {p}, v)
  {
    hide SlotsOk, RoutesOk, CountsOk, NeighBase, NeighOk;
    var s' := Acquire(s, v, n, p, nhOid, neighOid);
    assert InRange(s') by { assert InRange(s); }
    assert Users(s, p) != {};
    var j :| j in Users(s, p);
    forall q: Ptr, w: Vrf | q in s.heap && s.heap[q].key.gateway != 0
      ensures UsedBy(s, {}, v, q, w) == UsedBy(s', {p}, v, q, w)
    {
      if q == p {
        assert j.vrf == v && UsedBy(s, {}, v, p, v);
      }
    }
    SameNeigh(s, s', {}, {p}, v);
  }

  lemma CntAcquire(n: NeighTable, v: Vrf, g: nat, oid: nat)
    requires CntOk(n) && v in n.cnt
    ensures CntOk(NeighAcquire(n, v, g, oid))
  {
    var n' := NeighAcquire(n, v, g, oid);
    var nk := NeighKey(v, g);
    forall w <- n'.cnt ensures n'.cnt[w] == |FastOf(n', w)| {
      assert FastOf(n, w) - {nk} == FastOf(n', w) - {nk};
      CardAt(FastOf(n, w), FastOf(n', w), nk);
    }
  }

  lemma CntRelease(n: NeighTable, v: Vrf, g: nat)
    requires CntOk(n) && v in n.cnt
    requires var nk := NeighKey(v, g); nk in n.tbl && n.tbl[nk].refcnt <= 1 ==> !n.tbl[nk].isStatic
    ensures CntOk(NeighRelease(n, v, g))
  {
    var n' := NeighRelease(n, v, g);
    var nk := NeighKey(v, g);
    forall w <- n'.cnt ensures n'.cnt[w] == |FastOf(n', w)| {
      assert FastOf(n, w) - {nk} == FastOf(n', w) - {nk};
      CardAt(FastOf(n, w), FastOf(n', w), nk);
    }
  }

  /** `p` is live in `s1` but not in `s0`, is used by VRF `v` alone, and nothing else differs. */
  ghost predicate Born(s0: State, held0: set<Ptr>, s1: State, held1: set<Ptr>, v: Vrf, p: Ptr) {
    && InRange(s0) && InRange(s1)
    && s1.heap.Keys == s0.heap.Keys + {p} && p !in s0.heap
    && (forall q <- s0.heap :: s1.heap[q].key == s0.heap[q].key && s1.heap[q].neighOid == s0.heap[q].neighOid)
    && (forall q: Ptr, w: Vrf | q in s0.heap :: UsedBy(s0, held0, v, q, w) == UsedBy(s1, held1, v, q, w))
    && (forall w: Vrf :: UsedBy(s1, held1, v, p, w) <==> w == v)
  }

  lemma BornLive(s0: State, held0: set<Ptr>, s1: State, held1: set<Ptr>, v: Vrf, p: Ptr, w: Vrf, g: nat)
    requires Born(s0, held0, s1, held1, v, p)
    ensures Live(s1, held1, v, w, g)
         == Live(s0, held0, v, w, g) + if w == v && g != 0 && g == s1.heap[p].key.gateway then {p} else {}
    ensures |Live(s1, held1, v, w, g)|
         == |Live(s0, held0, v, w, g)| + if w == v && g != 0 && g == s1.heap[p].key.gateway then 1 else 0
  {
    hide UsedBy;
    assert p !in Live(s0, held0, v, w, g);
  }

  /** The neighbour table of `s1` is that of `s0` with the reference of `p` taken. */
  ghost predicate Taken(s0: State, s1: State, v: Vrf, p: Ptr, neighOid: nat) {
    && v in s0.nb.cnt && p in s1.heap
    && var g := s1.heap[p].key.gateway;
       if g == 0 then s1.nb == s0.nb
       else s1.nb == NeighAcquire(s0.nb, v, g, neighOid) && s1.heap[p].neighOid == s1.nb.tbl[NeighKey(v, g)].oid
  }

  lemma BornOneVrf(s0: State, held0: set<Ptr>, s1: State, held1: set<Ptr>, v: Vrf, p: Ptr)
    requires Born(s0, held0, s1, held1, v, p)
    ensures OneVrf(s0, held0, v) <==> OneVrf(s1, held1, v)
  {
    hide UsedBy;
  }

  lemma BornRefcnt(s0: State, held0: set<Ptr>, s1: State, held1: set<Ptr>, v: Vrf, p: Ptr, neighOid: nat)
    requires Born(s0, held0, s1, held1, v, p) && Counted(s0, held0, v) && Taken(s0, s1, v, p, neighOid)
    ensures RefcntOk(s1, held1, v)
  {
    hide UsedBy, Live;
    assert InRange(s0) && InRange(s1);
    hide Born;
    forall nk <- s1.nb.tbl
      ensures s1.nb.tbl[nk].refcnt
           == |Live(s1, held1, v, nk.vrf, nk.gateway)| + (if s1.nb.tbl[nk].isStatic then 1 else 0)
    {
      BornLive(s0, held0, s1, held1, v, p, nk.vrf, nk.gateway);
      if nk !in s0.nb.tbl {
        NoEntryNoLive(s0, held0, v, nk.vrf, nk.gateway);
      }
    }
  }

  lemma BornResolved(s0: State, held0: set<Ptr>, s1: State, held1: set<Ptr>, v: Vrf, p: Ptr, neighOid: nat)
    requires Born(s0, held0, s1, held1, v, p) && Counted(s0, held0, v) && Taken(s0, s1, v, p, neighOid)
    ensures ResolvedOk(s1, held1, v)
  {
    hide UsedBy, Live, RefcntOk;
  }

  lemma BornNeigh(s0: State, held0: set<Ptr>, s1: State, held1: set<Ptr>, v: Vrf, p: Ptr, neighOid: nat)
    requires Born(s0, held0, s1, held1, v, p) && NeighOk(s0, held0, v) && Taken(s0, s1, v, p, neighOid)
    ensures NeighOk(s1, held1, v)
  {
    hide UsedBy, CntOk, RefcntOk, ResolvedOk, OneVrf;
    CntAcquire(s0.nb, v, s1.heap[p].key.gateway, neighOid);
    BornRefcnt(s0, held0, s1, held1, v, p, neighOid);
    BornResolved(s0, held0, s1, held1, v, p, neighOid);
    BornOneVrf(s0, held0, s1, held1, v, p);
  }

  lemma NoEntryNoLive(s: State, held: set<Ptr>, hv: Vrf, v: Vrf, g: nat)
    requires InRange(s) && ResolvedOk(s, held, hv) && NeighKey(v, g) !in s.nb.tbl
    ensures Live(s, held, hv, v, g) == {}
  {
    hide UsedBy;
  }

  /** The neighbour table of `s0` is that of `s1` with the reference of `p` given back. */
  ghost predicate Given(s0: State, s1: State, v: Vrf, p: Ptr) {
    && v in s1.nb.cnt && p in s1.heap
    && var g := s1.heap[p].key.gateway;
       s0.nb == if g == 0 then s1.nb else NeighRelease(s1.nb, v, g)
  }

  /** The entry that a dying next hop refers to counts it. */
  lemma DyingEntry(s0: State, held0: set<Ptr>, s1: State, held1: set<Ptr>, v: Vrf, p: Ptr)
    requires Born(s0, held0, s1, held1, v, p) && Counted(s1, held1, v) && s1.heap[p].key.gateway != 0
    ensures var nk := NeighKey(v, s1.heap[p].key.gateway);
            nk in s1.nb.tbl && s1.nb.tbl[nk].refcnt >= 1 && (s1.nb.tbl[nk].refcnt <= 1 ==> !s1.nb.tbl[nk].isStatic)
  {
    hide UsedBy;
    var g := s1.heap[p].key.gateway;
    assert UsedBy(s1, held1, v, p, v);
    BornLive(s0, held0, s1, held1, v, p, v, g);
  }

  lemma DiedRefcnt(s0: State, held0: set<Ptr>, s1: State, held1: set<Ptr>, v: Vrf, p: Ptr)
    requires Born(s0, held0, s1, held1, v, p) && Counted(s1, held1, v) && Given(s0, s1, v, p)
    ensures RefcntOk(s0, held0, v)
  {
    hide UsedBy, Live, ResolvedOk;
    assert InRange(s0) && InRange(s1);
    hide Born;
    if s1.heap[p].key.gateway != 0 {
      DyingEntry(s0, held0, s1, held1, v, p);
    }
    forall nk <- s0.nb.tbl
      ensures s0.nb.tbl[nk].refcnt
           == |Live(s0, held0, v, nk.vrf, nk.gateway)| + (if s0.nb.tbl[nk].isStatic then 1 else 0)
    {
      BornLive(s0, held0, s1, held1, v, p, nk.vrf, nk.gateway);
    }
  }

  lemma DiedNeigh(s0: State, held0: set<Ptr>, s1: State, held1: set<Ptr>, v: Vrf, p: Ptr)
    requires Born(s0, held0, s1, held1, v, p) && NeighOk(s1, held1, v) && Given(s0, s1, v, p)
    ensures NeighOk(s0, held0, v)
  {
    hide UsedBy, CntOk, RefcntOk, ResolvedOk, OneVrf;
    if s1.heap[p].key.gateway != 0 {
      DyingEntry(s0, held0, s1, held1, v, p);
      CntRelease(s1.nb, v, s1.heap[p].key.gateway);
    }
    DiedRefcnt(s0, held0, s1, held1, v, p);
    DiedResolved(s0, held0, s1, held1, v, p);
    BornOneVrf(s0, held0, s1, held1, v, p);
  }

  lemma DiedResolved(s0: State, held0: set<Ptr>, s1: State, held1: set<Ptr>, v: Vrf, p: Ptr)
    requires Born(s0, held0, s1, held1, v, p) && Counted(s1, held1, v) && Given(s0, s1, v, p)
    ensures ResolvedOk(s0, held0, v)
  {
    hide UsedBy;
    var g := s1.heap[p].key.gateway;
    forall q <- s0.heap, w: Vrf | s0.heap[q].key.gateway != 0 && UsedBy(s0, held0, v, q, w)
      ensures var nk := NeighKey(w, s0.heap[q].key.gateway); nk in s0.nb.tbl && s0.nb.tbl[nk].oid == s0.heap[q].neighOid
    {
      var nk := NeighKey(w, s0.heap[q].key.gateway);
      assert UsedBy(s1, held1, v, q, w) && nk in s1.nb.tbl;
      if nk == NeighKey(v, g) {
        BornLive(s0, held0, s1, held1, v, p, v, g);
        assert q in Live(s0, held0, v, v, g);
        assert |Live(s0, held0, v, v, g)| > 0;
      }
    }
  }

  lemma AcquireBorn(s: State, v: Vrf, n: NhKey, p: Ptr, nhOid: nat, neighOid: nat)
    requires RoutesOk(s) && v in s.nb.cnt && n !in s.nhops && p !in s.heap
    ensures var s' := Acquire(s, v, n, p, nhOid, neighOid); Born(s, {}, s', {p}, v, p) && Taken(s, s', v, p, neighOid)
  {
    NoUsers(s, p);
    var s' := Acquire(s, v, n, p, nhOid, neighOid);
    forall k <- s.rib ensures p !in Paths(s, k) { assert k !in Users(s, p); }
  }

  lemma AcquireNeigh(s: State, v: Vrf, n: NhKey, p: Ptr, nhOid: nat, neighOid: nat)
    requires Core(s, {}) && v in s.nb.cnt && Designates(s, n, p) && Mine(s, v, n) && NeighOk(s, {}, v)
    ensures InRange(Acquire(s, v, n, p, nhOid, neighOid)) && NeighOk(Acquire(s, v, n, p, nhOid, neighOid), {p}, v)
  {
    hide SlotsOk, ResOk, RefsOk, TableOk, CountsOk, NeighBase, NeighOk, Mine, Acquire, Born, Taken;
    if n in s.nhops {
      AcquireLive(s, v, n, p, nhOid, neighOid);
    } else {
      AcquireBorn(s, v, n, p, nhOid, neighOid);
      BornNeigh(s, {}, Acquire(s, v, n, p, nhOid, neighOid), {p}, v, p, neighOid);
    }
  }

  lemma ReleaseBorn(s: State, v: Vrf, p: Ptr, held: set<Ptr>)
    requires InRange(s) && p in s.heap && v in s.nb.cnt && p in held && s.heap[p].refCount == 1 && Users(s, p) == {}
    ensures var s' := Release(s, v, p); Born(s', held - {p}, s, held, v, p) && Given(s', s, v, p)
  {
    var s' := Release(s, v, p);
    forall k <- s.rib ensures p !in Paths(s, k) { assert k !in Users(s, p); }
  }

  lemma ReleaseShared(s: State, v: Vrf, p: Ptr, held: set<Ptr>)
    requires InRange(s) && p in s.heap && v in s.nb.cnt && p in held && s.heap[p].refCount > 1 && Users(s, p) != {}
    requires NeighOk(s, held, v)
    ensures NeighOk(Release(s, v, p), held - {p}, v)
  {
    var s' := Release(s, v, p);
    var j :| j in Users(s, p);
    forall q: Ptr, w: Vrf | q in s.heap && s.heap[q].key.gateway != 0
      ensures UsedBy(s, held, v, q, w) == UsedBy(s', held - {p}, v, q, w)
    {
      if q == p {
        assert UsedBy(s, held, v, p, v) && UsedBy(s, held, v, p, j.vrf);
        assert j.vrf == v;
      }
    }
    hide NeighOk;
    SameNeigh(s, s', held, held - {p}, v);
  }

  lemma ReleaseNeighOk(s: State, v: Vrf, p: Ptr, held: set<Ptr>)
    requires RefsOk(s, held) && v in s.nb.cnt && p in held && NeighOk(s, held, v)
    ensures NeighOk(Release(s, v, p), held - {p}, v)
  {
    hide NeighOk, Users, Release, Born, Given;
    if s.heap[p].refCount > 1 {
      ReleaseShared(s, v, p, held);
    } else {
      ReleaseBorn(s, v, p, held);
      DiedNeigh(Release(s, v, p), held - {p}, s, held, v, p);
    }
  }

  // ---------------------------------------------------------------------------------------------
  // Operations

  lemma InsertedMineNeigh(s: State, k: RibKey, n: NhKey, t: RibType, p: Ptr, id: nat, nhOid: nat, neighOid: nat)
    requires Core(s, {}) && CanInsert(s, k, n, t, p, id) && NeighOk(s, {}, k.vrf) && Mine(s, k.vrf, n)
    ensures var s' := Inserted(s, k, n, t, p, id, nhOid, neighOid); InRange(s') && NeighOk(s', {}, k.vrf)
  {
    hide RoutesOk, CountsOk, RefsOk, NeighBase, NeighOk, Mine, Acquire, Accepts, SlotsOk;
    assert InRange(s) by { InRangeOf(s, {}); }
    var s1 := Acquire(s, k.vrf, n, p, nhOid, neighOid);
    AcquireCore(s, k.vrf, n, p, nhOid, neighOid);
    AcquireNeigh(s, k.vrf, n, p, nhOid, neighOid);
    InstallSlots(s1, k, id, Extended(s, k, n, t, p, nhOid, neighOid));
    FreshPath(s, k, n, t, p);
    MovedNeigh(s1, Inserted(s, k, n, t, p, id, nhOid, neighOid), k, {p}, {});
  }

  lemma InRangeOf(s: State, held: set<Ptr>)
    requires Core(s, held)
    ensures InRange(s)
  {
  }

  /** A path to a next hop that is live in another VRF: the count of the gateway's neighbour is now wrong. */
  lemma InsertedForeign(s: State, k: RibKey, n: NhKey, t: RibType, p: Ptr, id: nat, nhOid: nat, neighOid: nat)
    requires Core(s, {}) && CanInsert(s, k, n, t, p, id) && NeighOk(s, {}, k.vrf) && !Mine(s, k.vrf, n)
    ensures var s' := Inserted(s, k, n, t, p, id, nhOid, neighOid); InRange(s') && !Counted(s', {}, k.vrf)
  {
    hide CountsOk, NeighBase, Accepts, SlotsOk, RefsOk, RoutesOk, Inserted, CntOk;
    assert InRange(s) by { InRangeOf(s, {}); }
    var s' := Inserted(s, k, n, t, p, id, nhOid, neighOid);
    var v, g := k.vrf, n.gateway;
    var j :| j in s.rib && p in Paths(s, j) && j.vrf != v;
    assert UsedBy(s, {}, v, p, j.vrf);
    assert !UsedBy(s, {}, v, p, v);
    InsertedPaths(s, k, n, t, p, id, nhOid, neighOid);
    assert UsedBy(s', {}, v, p, v) by { assert k in s'.rib && p in Paths(s', k); }
    if NeighKey(v, g) in s.nb.tbl {
      ForeignLive(s, s', k, p, g);
    }
  }

  lemma InsertedPaths(s: State, k: RibKey, n: NhKey, t: RibType, p: Ptr, id: nat, nhOid: nat, neighOid: nat)
    requires Core(s, {}) && CanInsert(s, k, n, t, p, id)
    ensures var s' := Inserted(s, k, n, t, p, id, nhOid, neighOid);
            && InRange(s') && k in s'.rib && Paths(s', k) == OldPaths(s, k) + [p]
            && (forall j | j != k :: (j in s'.rib <==> j in s.rib) && (j in s.rib ==> Paths(s', j) == Paths(s, j)))
            && (n in s.nhops ==>
                  s'.nb == s.nb && s'.heap.Keys == s.heap.Keys && forall q <- s.heap :: s'.heap[q].key == s.heap[q].key)
  {
    hide RoutesOk, CountsOk, RefsOk, NeighBase, Accepts, SlotsOk;
    assert InRange(s) by { InRangeOf(s, {}); }
    AcquireCore(s, k.vrf, n, p, nhOid, neighOid);
    InstallSlots(Acquire(s, k.vrf, n, p, nhOid, neighOid), k, id, Extended(s, k, n, t, p, nhOid, neighOid));
  }

  lemma ForeignLive(s: State, s': State, k: RibKey, p: Ptr, g: nat)
    requires InRange(s) && InRange(s') && k in s'.rib && Paths(s', k) == OldPaths(s, k) + [p]
    requires forall j | j != k :: (j in s'.rib <==> j in s.rib) && (j in s.rib ==> Paths(s', j) == Paths(s, j))
    requires s'.heap.Keys == s.heap.Keys && forall q <- s.heap :: s'.heap[q].key == s.heap[q].key
    requires p in s.heap && s.heap[p].key.gateway == g && g != 0 && !UsedBy(s, {}, k.vrf, p, k.vrf)
    ensures |Live(s', {}, k.vrf, k.vrf, g)| == |Live(s, {}, k.vrf, k.vrf, g)| + 1
  {
    var v := k.vrf;
    forall q: Ptr ensures UsedBy(s', {}, v, q, v) <==> UsedBy(s, {}, v, q, v) || q == p {
      if q in Paths(s', k) && q != p {
        assert q in OldPaths(s, k);
      }
      assert p in Paths(s', k);
      if i :| i in s.rib && i.vrf == v && q in Paths(s, i) {
        assert i in s'.rib && q in Paths(s', i);
      }
    }
    assert Live(s', {}, v, v, g) == Live(s, {}, v, v, g) + {p};
  }

  /** A successful insert keeps the neighbour counting exact if and only if the next hop is not live in
      another VRF. */
  lemma InsertedNeigh(s: State, k: RibKey, n: NhKey, t: RibType, p: Ptr, id: nat, nhOid: nat, neighOid: nat)
    requires Core(s, {}) && CanInsert(s, k, n, t, p, id) && NeighOk(s, {}, k.vrf)
    ensures var s' := Inserted(s, k, n, t, p, id, nhOid, neighOid);
            && InRange(s')
            && (NeighOk(s', {}, k.vrf) <==> Mine(s, k.vrf, n))
            && (Counted(s', {}, k.vrf) <==> Mine(s, k.vrf, n))
  {
    hide Core, Mine, RefcntOk, ResolvedOk, CntOk, OneVrf, Inserted, CanInsert;
    InRangeOf(s, {});
    if Mine(s, k.vrf, n) {
      InsertedMineNeigh(s, k, n, t, p, id, nhOid, neighOid);
    } else {
      InsertedForeign(s, k, n, t, p, id, nhOid, neighOid);
    }
  }

  lemma UnlinkedNeigh(s: State, k: RibKey, i: nat, id: nat)
    requires Core(s, {}) && CanRemove(s, k, i, id) && NeighOk(s, {}, k.vrf)
    ensures var s' := Unlinked(s, k, i, id); InRange(s') && NeighOk(s', {Paths(s, k)[i]}, k.vrf)
  {
    hide TableOk, RefsOk, NeighBase, ResOk, NeighOk, SlotsOk;
    RoutePaths(s, k);
    var s' := Unlinked(s, k, i, id);
    if |Paths(s, k)| == 1 {
      WithdrawSlots(s, k);
    } else {
      ReducedConserves(Paths(s, k), i);
      InstallSlots(s, k, id, Reduced(s, k, i));
    }
    MovedNeigh(s, s', k, {}, {Paths(s, k)[i]});
  }

  lemma RemovedNeigh(s: State, k: RibKey, i: nat, id: nat)
    requires Core(s, {}) && CanRemove(s, k, i, id) && NeighOk(s, {}, k.vrf)
    ensures var s' := Removed(s, k, i, id); InRange(s') && NeighOk(s', {}, k.vrf)
  {
    hide SlotsOk, TableOk, CountsOk, NeighBase, ResOk, NeighOk, Unlinked, Release, Users;
    UnlinkedCore(s, k, i, id);
    UnlinkedNeigh(s, k, i, id);
    var p := Paths(s, k)[i];
    ReleaseNeighOk(Unlinked(s, k, i, id), k.vrf, p, {p});
    assert {p} - {p} == {};
  }

  lemma {:induction false} ReleaseAllNeigh(s: State, v: Vrf, ps: seq<Ptr>)
    requires Core(s, Elems(ps)) && Distinct(ps) && v in s.nb.cnt && NeighOk(s, Elems(ps), v)
    ensures NeighOk(ReleaseAll(s, v, ps), {}, v)
    decreases |ps|
  {
    hide SlotsOk, RoutesOk, TableOk, CountsOk, NeighBase, NeighOk, Release, Users;
    if ps == [] {
      assert Elems(ps) == {};
    } else {
      ReleaseHead(s, v, ps);
      ReleaseNeighOk(s, v, ps[0], Elems(ps));
      assert Elems(ps) - {ps[0]} == Elems(ps[1..]);
      ReleaseAllNeigh(Release(s, v, ps[0]), v, ps[1..]);
    }
  }

  lemma DroppedNeigh(s: State, k: RibKey)
    requires Core(s, {}) && k in s.rib && NeighOk(s, {}, k.vrf)
    ensures InRange(Dropped(s, k)) && NeighOk(Dropped(s, k), {}, k.vrf)
  {
    hide TableOk, RefsOk, NeighBase, ResOk, NeighOk, SlotsOk, ReleaseAll;
    WithdrawnCore(s, k);
    WithdrawSlots(s, k);
    MovedNeigh(s, Withdraw(s, k), k, {}, Elems(Paths(s, k)));
    ReleaseAllNeigh(Withdraw(s, k), k.vrf, Paths(s, k));
    InRangeOf(Dropped(s, k), {});
  }

  lemma {:induction false} DropAllNeigh(s: State, v: Vrf, ks: seq<RibKey>)
    requires Core(s, {}) && Distinct(ks) && Elems(ks) <= KeysOf(s.rib, v) && NeighOk(s, {}, v)
    ensures InRange(DropAll(s, ks)) && NeighOk(DropAll(s, ks), {}, v)
    decreases |ks|
  {
    hide SlotsOk, RoutesOk, TableOk, RefsOk, CountsOk, NeighBase, Dropped, NeighOk;
    InRangeOf(DropAll(s, ks), {});
    if ks != [] {
      InitElems(ks);
      var k := ks[|ks| - 1];
      assert k in Elems(ks);
      DropAllNeigh(s, v, ks[..|ks| - 1]);
      DroppedNeigh(DropAll(s, ks[..|ks| - 1]), k);
    }
  }

  // ---------------------------------------------------------------------------------------------
  // Static entries

  lemma StaticBase(n: NeighTable, v: Vrf, g: nat, mac: nat)
    requires NeighBase(n)
    ensures NeighBase(NeighStatic(n, v, g, mac))
  {
    var n' := NeighStatic(n, v, g, mac);
    assert n'.tbl.Keys == n.tbl.Keys + {NeighKey(v, g)};
  }

  lemma StaticCnt(n: NeighTable, v: Vrf, g: nat, mac: nat)
    requires CntOk(n)
    ensures CntOk(NeighStatic(n, v, g, mac))
  {
    var n' := NeighStatic(n, v, g, mac);
    forall w <- n'.cnt ensures n'.cnt[w] == |FastOf(n', w)| {
      assert FastOf(n', w) == FastOf(n, w);
    }
  }

  lemma StaticNeigh(s: State, v: Vrf, g: nat, mac: nat, hv: Vrf)
    requires InRange(s) && NeighOk(s, {}, hv)
    ensures NeighOk(s.(nb := NeighStatic(s.nb, v, g, mac)), {}, hv)
  {
    hide CntOk;
    StaticCnt(s.nb, v, g, mac);
    var s' := s.(nb := NeighStatic(s.nb, v, g, mac));
    forall p: Ptr, w: Vrf ensures UsedBy(s', {}, hv, p, w) == UsedBy(s, {}, hv, p, w) {}
    hide UsedBy;
    forall w: Vrf, h: nat ensures Live(s', {}, hv, w, h) == Live(s, {}, hv, w, h) {}
    if NeighKey(v, g) !in s.nb.tbl {
      NoEntryNoLive(s, {}, hv, v, g);
    }
    hide Live;
  }
}
