/** What adding a VRF does to the neighbour counting.

    A VRF that is added starts with its neighbour counter at zero, while entries of an earlier life of the same
    VRF may be left in the table. Those are static entries; the counter misses the ones that a next hop created
    and a static add took over. No other operation removes such an entry, so they stay for good. */
module RouteReset {
  import opened Sequences
  import opened RouteState
  import opened RouteInv
  import opened RouteOps
  import opened RouteNeigh

  /** The entries that a next hop created and a static add took over. */
  ghost function TakenOver(n: NeighTable): set<NeighKey> {
    set nk | nk in n.tbl && n.tbl[nk].fastArp && n.tbl[nk].isStatic
  }

  /** The static entries, but for their counts. */
  ghost function Statics(n: NeighTable): map<NeighKey, Neigh> {
    map nk | nk in n.tbl && n.tbl[nk].isStatic :: n.tbl[nk].(refcnt := 0)
  }

  lemma SameStatics(n: NeighTable, n': NeighTable)
    requires Statics(n') == Statics(n)
    ensures TakenOver(n') == TakenOver(n)
  {
    forall nk ensures nk in TakenOver(n') <==> nk in TakenOver(n) {
      assert nk in Statics(n') <==> nk in Statics(n);
    }
  }

  ghost predicate NoneTakenOver(n: NeighTable, v: Vrf) {
    forall nk <- n.tbl | nk.vrf == v :: !(n.tbl[nk].fastArp && n.tbl[nk].isStatic)
  }

  // ---------------------------------------------------------------------------------------------
  // Static entries stay

  lemma NeighAcquireKeeps(n: NeighTable, v: Vrf, g: nat, oid: nat)
    requires v in n.cnt
    ensures Statics(NeighAcquire(n, v, g, oid)) == Statics(n)
  {
  }

  lemma NeighReleaseKeeps(n: NeighTable, v: Vrf, g: nat)
    requires v in n.cnt
    requires var nk := NeighKey(v, g); nk in n.tbl && n.tbl[nk].refcnt <= 1 ==> !n.tbl[nk].isStatic
    ensures Statics(NeighRelease(n, v, g)) == Statics(n)
  {
  }

  lemma AcquireKeeps(s: State, v: Vrf, n: NhKey, p: Ptr, nhOid: nat, neighOid: nat)
    requires v in s.nb.cnt && (n in s.nhops ==> p in s.heap)
    ensures Statics(Acquire(s, v, n, p, nhOid, neighOid).nb) == Statics(s.nb)
  {
    hide NeighAcquire, Statics;
    NeighAcquireKeeps(s.nb, v, n.gateway, neighOid);
  }

  /** A static entry outlives the next hops that resolve through it. */
  lemma ReleaseKeeps(s: State, v: Vrf, p: Ptr, held: set<Ptr>)
    requires RefsOk(s, held) && v in s.nb.cnt && p in held && NeighOk(s, held, v)
    ensures Statics(Release(s, v, p).nb) == Statics(s.nb)
  {
    hide Users, Born, Given, RefcntOk, ResolvedOk, CntOk, OneVrf, NeighRelease, Statics;
    var g := s.heap[p].key.gateway;
    if s.heap[p].refCount <= 1 && g != 0 {
      ReleaseBorn(s, v, p, held);
      DyingEntry(Release(s, v, p), held - {p}, s, held, v, p);
      NeighReleaseKeeps(s.nb, v, g);
    }
  }

  lemma {:induction false} ReleaseAllKeeps(s: State, v: Vrf, ps: seq<Ptr>)
    requires Core(s, Elems(ps)) && Distinct(ps) && v in s.nb.cnt && NeighOk(s, Elems(ps), v)
    ensures Statics(ReleaseAll(s, v, ps).nb) == Statics(s.nb)
    decreases |ps|
  {
    hide SlotsOk, RoutesOk, TableOk, CountsOk, NeighBase, NeighOk, Release, Users, Statics;
    if ps != [] {
      ReleaseHead(s, v, ps);
      ReleaseNeighOk(s, v, ps[0], Elems(ps));
      ReleaseKeeps(s, v, ps[0], Elems(ps));
      assert Elems(ps) - {ps[0]} == Elems(ps[1..]);
      ReleaseAllKeeps(Release(s, v, ps[0]), v, ps[1..]);
    }
  }

  lemma DroppedKeeps(s: State, k: RibKey)
    requires Core(s, {}) && k in s.rib && NeighOk(s, {}, k.vrf)
    ensures Statics(Dropped(s, k).nb) == Statics(s.nb)
  {
    hide TableOk, RefsOk, NeighBase, ResOk, NeighOk, SlotsOk, ReleaseAll, Statics;
    WithdrawnCore(s, k);
    WithdrawSlots(s, k);
    MovedNeigh(s, Withdraw(s, k), k, {}, Elems(Paths(s, k)));
    ReleaseAllKeeps(Withdraw(s, k), k.vrf, Paths(s, k));
  }

  lemma {:induction false} DropAllKeeps(s: State, v: Vrf, ks: seq<RibKey>)
    requires Core(s, {}) && Distinct(ks) && Elems(ks) <= KeysOf(s.rib, v) && NeighOk(s, {}, v)
    ensures Statics(DropAll(s, ks).nb) == Statics(s.nb)
    decreases |ks|
  {
    hide SlotsOk, RoutesOk, TableOk, RefsOk, CountsOk, NeighBase, Dropped, NeighOk, Statics;
    if ks != [] {
      InitElems(ks);
      var k := ks[|ks| - 1];
      assert k in Elems(ks);
      DropAllNeigh(s, v, ks[..|ks| - 1]);
      DropAllKeeps(s, v, ks[..|ks| - 1]);
      DroppedKeeps(DropAll(s, ks[..|ks| - 1]), k);
    }
  }

  lemma RemovedKeeps(s: State, k: RibKey, i: nat, id: nat)
    requires Core(s, {}) && CanRemove(s, k, i, id) && NeighOk(s, {}, k.vrf)
    ensures Statics(Removed(s, k, i, id).nb) == Statics(s.nb)
  {
    hide SlotsOk, TableOk, CountsOk, NeighBase, ResOk, NeighOk, Release, Users, Statics;
    UnlinkedCore(s, k, i, id);
    UnlinkedNeigh(s, k, i, id);
    var p := Paths(s, k)[i];
    ReleaseKeeps(Unlinked(s, k, i, id), k.vrf, p, {p});
  }

  lemma InsertedKeeps(s: State, k: RibKey, n: NhKey, t: RibType, p: Ptr, id: nat, nhOid: nat, neighOid: nat)
    requires Core(s, {}) && CanInsert(s, k, n, t, p, id)
    ensures Statics(Inserted(s, k, n, t, p, id, nhOid, neighOid).nb) == Statics(s.nb)
  {
    hide SlotsOk, RefsOk, CountsOk, NeighBase, ToFib, Accepts, Extended, ResOk, Acquire, Statics;
    AcquireKeeps(s, k.vrf, n, p, nhOid, neighOid);
  }

  /** What a static add makes of the entry `nk`: a resolved static entry with the given address, which keeps the
      object id and the creator of an entry that was there. */
  ghost function MadeStatic(n: NeighTable, nk: NeighKey, mac: nat): Neigh {
    if nk in n.tbl then Neigh(n.tbl[nk].oid, 0, true, n.tbl[nk].fastArp, true, mac)
    else Neigh(0, 0, true, false, true, mac)
  }

  lemma StaticMakes(n: NeighTable, v: Vrf, g: nat, mac: nat)
    ensures var nk := NeighKey(v, g);
            Statics(NeighStatic(n, v, g, mac)) == Statics(n)[nk := MadeStatic(n, nk, mac)]
  {
  }

  ghost function Overtaken(n: NeighTable, nk: NeighKey): set<NeighKey> {
    if nk in n.tbl && !n.tbl[nk].isStatic then {nk} else {}
  }

  /** It takes the entry over if a next hop created it; nothing else changes that set. */
  lemma StaticTakes(n: NeighTable, v: Vrf, g: nat, mac: nat)
    requires CntOk(n)
    ensures TakenOver(NeighStatic(n, v, g, mac)) == TakenOver(n) + Overtaken(n, NeighKey(v, g))
  {
  }

  // ---------------------------------------------------------------------------------------------
  // The reset

  lemma ResetCore(s: State, v: Vrf)
    requires Core(s, {}) && v in s.nb.cnt
    ensures Core(s.(nb := NeighReset(s.nb, v)), {})
  {
    hide SlotsOk, RoutesOk, TableOk, RefsOk, CountsOk, NeighBase;
    SameTable(s.nb, NeighReset(s.nb, v));
    NbCore(s, NeighReset(s.nb, v));
  }

  lemma SameTable(n: NeighTable, n': NeighTable)
    requires NeighBase(n) && n'.tbl == n.tbl && n'.count == n.count
    ensures NeighBase(n')
  {
  }

  /** The reset keeps the counter exact if and only if it changes nothing. */
  lemma ResetCnt(n: NeighTable, v: Vrf)
    requires CntOk(n) && v in n.cnt
    ensures CntOk(NeighReset(n, v)) <==> n.cnt[v] == 0
  {
    var n' := NeighReset(n, v);
    forall w: Vrf ensures FastOf(n', w) == FastOf(n, w) {}
  }

  lemma ResetNeigh(s: State, v: Vrf, hv: Vrf)
    requires InRange(s) && NeighOk(s, {}, hv) && v in s.nb.cnt
    ensures NeighOk(s.(nb := NeighReset(s.nb, v)), {}, hv) <==> s.nb.cnt[v] == 0
  {
    hide CntOk;
    ResetCnt(s.nb, v);
    var s' := s.(nb := NeighReset(s.nb, v));
    forall p: Ptr, w: Vrf ensures UsedBy(s', {}, hv, p, w) == UsedBy(s, {}, hv, p, w) {}
    hide UsedBy;
    forall w: Vrf, g: nat ensures Live(s', {}, hv, w, g) == Live(s, {}, hv, w, g) {}
    hide Live;
  }

  lemma NoRoutesNoLive(s: State, v: Vrf, g: nat)
    requires InRange(s) && KeysOf(s.rib, v) == {}
    ensures Live(s, {}, v, v, g) == {}
  {
    assert forall k <- s.rib :: k in KeysOf(s.rib, k.vrf);
    assert forall p: Ptr :: !UsedBy(s, {}, v, p, v);
  }

  /** In a VRF without routes the entries left are static ones, so that the counter is zero exactly if none of
      them was taken over. */
  lemma EmptyVrfCount(s: State, v: Vrf)
    requires NeighBase(s.nb) && InRange(s) && NeighOk(s, {}, v) && v in s.nb.cnt && KeysOf(s.rib, v) == {}
    ensures s.nb.cnt[v] == 0 <==> NoneTakenOver(s.nb, v)
  {
    hide Live, ResolvedOk, OneVrf, KeysOf;
    forall nk <- s.nb.tbl | nk.vrf == v ensures s.nb.tbl[nk].isStatic {
      NoRoutesNoLive(s, v, nk.gateway);
    }
    if NoneTakenOver(s.nb, v) {
      assert FastOf(s.nb, v) == {};
    } else {
      var nk :| nk in s.nb.tbl && nk.vrf == v && s.nb.tbl[nk].fastArp && s.nb.tbl[nk].isStatic;
      assert nk in FastOf(s.nb, v);
    }
  }

  lemma TakenOverIn(n: NeighTable, v: Vrf)
    ensures NoneTakenOver(n, v) <==> forall nk <- TakenOver(n) :: nk.vrf != v
  {
    if !NoneTakenOver(n, v) {
      var nk :| nk in n.tbl && nk.vrf == v && n.tbl[nk].fastArp && n.tbl[nk].isStatic;
      assert nk in TakenOver(n);
    }
  }

  /** Delete and add of a VRF: after the cleanup of all its routes the reset keeps the neighbour counting exact
      if and only if no entry that a next hop had created was made static before. */
  lemma CleanupReset(s: State, v: Vrf, ks: seq<RibKey>)
    requires Core(s, {}) && NeighOk(s, {}, v) && v in s.nb.cnt
    requires Distinct(ks) && Elems(ks) == KeysOf(s.rib, v)
    ensures Elems(ks) <= s.rib.Keys && InRange(DropAll(s, ks)) && v in DropAll(s, ks).nb.cnt
    ensures var s' := DropAll(s, ks);
            && (CntOk(NeighReset(s'.nb, v)) <==> NoneTakenOver(s.nb, v))
            && (NeighOk(s'.(nb := NeighReset(s'.nb, v)), {}, v) <==> NoneTakenOver(s.nb, v))
  {
    hide SlotsOk, RoutesOk, TableOk, RefsOk, NeighBase, DropAll, TakenOver, NoneTakenOver, NeighReset,
         Statics, RefcntOk, ResolvedOk, CntOk, OneVrf;
    DropAllNeigh(s, v, ks);
    DropAllKeeps(s, v, ks);
    DropAllCnt(s, ks);
    var s' := DropAll(s, ks);
    SameStatics(s.nb, s'.nb);
    assert KeysOf(s'.rib, v) == {};
    EmptyVrfCount(s', v);
    ResetCnt(s'.nb, v);
    ResetNeigh(s', v, v);
    TakenOverIn(s.nb, v);
    TakenOverIn(s'.nb, v);
  }

  lemma {:induction false} DropAllCnt(s: State, ks: seq<RibKey>)
    requires Core(s, {}) && Distinct(ks) && Elems(ks) <= s.rib.Keys
    ensures DropAll(s, ks).ribCnt.Keys == s.ribCnt.Keys
    ensures DropAll(s, ks).nb.cnt.Keys == s.nb.cnt.Keys
    decreases |ks|
  {
    hide SlotsOk, RoutesOk, TableOk, RefsOk, NeighBase, ReleaseAll;
    if ks != [] {
      InitElems(ks);
      var s1, k := DropAll(s, ks[..|ks| - 1]), ks[|ks| - 1];
      DropAllCnt(s, ks[..|ks| - 1]);
      WithdrawnCore(s1, k);
      assert DropAll(s, ks) == Dropped(s1, k);
      assert Dropped(s1, k).ribCnt == Withdraw(s1, k).ribCnt;
    }
  }
}
