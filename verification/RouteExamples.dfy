/** Concrete runs of the route graph that break a property which callers have to care for. */
module RouteExamples {
  import opened Sequences
  import opened RouteState
  import opened RouteInv
  import opened RouteOps
  import opened RouteFib
  import opened RouteNeigh
  import opened RouteReset
  import opened RouteRuns
  import opened RouteLimits

  const GATEWAY: nat := 9
  const NEXT: NhKey := NhKey(GATEWAY, Vxlan(AF_INET, 1, 2, 3, 0))
  const OTHER: NhKey := NhKey(GATEWAY, Vxlan(AF_INET, 1, 2, 4, 0))
  const THIRD: NhKey := NhKey(GATEWAY, Vxlan(AF_INET, 1, 2, 5, 0))

  const MULTI: RibKey := RibKey(1, AF_INET, 32, 5)
  const PLAIN: RibKey := RibKey(1, AF_INET, 32, 6)

  ghost predicate Succeeds(s: State, op: Op, s': State) {
    Core(s, {}) && Step(s, op, Ok, s')
  }

  /** The state after the first insert of a route over `NEXT`, whose next hop is at address 7. */
  ghost function First(k: RibKey, t: RibType): State
    requires k.vrf == 1 && k.len <= 32
  {
    FirstCan(k, t);
    Inserted(Init({1, 2}), k, NEXT, t, 7, 1, 0, 0)
  }

  lemma FirstCan(k: RibKey, t: RibType)
    requires k.vrf == 1 && k.len <= 32
    ensures Core(Init({1, 2}), {}) && CanInsert(Init({1, 2}), k, NEXT, t, 7, 1)
  {
    hide SlotsOk, TableOk, RefsOk, CountsOk, NeighBase, ResOk;
    InitCore({1, 2});
  }

  ghost predicate FirstShape(s: State, k: RibKey, t: RibType) {
    && s.rib == map[k := 1] && s.res.Keys == {0, 1} && s.ribCnt.Keys == s.nb.cnt.Keys == {1, 2}
    && s.res[1].mpath == [7] && s.res[1].flags.mroute == t.RtMroute? && s.res[1].mpathMax == MaxPaths(t)
    && s.nhops == map[NEXT := 7] && s.heap == map[7 := Nhop(NEXT, 1, 0, 0)]
    && s.nb.tbl == map[NeighKey(1, GATEWAY) := Neigh(0, 1, false, true, false, 0)]
  }

  lemma FirstLooks(k: RibKey, t: RibType)
    requires k.vrf == 1 && k.len <= 32
    ensures FirstShape(First(k, t), k, t)
  {
    hide SlotsOk, TableOk, RefsOk, CountsOk, NeighBase, ResOk, ToFib;
    FirstCan(k, t);
  }

  lemma FirstFacts(k: RibKey, t: RibType)
    requires k.vrf == 1 && k.len <= 32
    ensures Tidy(First(k, t), 1) && Succeeds(Init({1, 2}), NhopInsert(k, NEXT, t), First(k, t))
    ensures FirstShape(First(k, t), k, t)
  {
    hide SlotsOk, TableOk, RefsOk, CountsOk, NeighBase, ResOk, NoClash, Mine, Tidy, Inserted, FirstShape;
    var s0, s := Init({1, 2}), First(k, t);
    FirstCan(k, t);
    FirstLooks(k, t);
    assert !Present(s0, k, NEXT);
    assert Succeeds(s0, NhopInsert(k, NEXT, t), s);
    InitTidy({1, 2}, 1);
    InitAlone(k);
    InsertTidy(s0, k, NEXT, t, Ok, s, 1);
  }

  lemma InitAlone(k: RibKey)
    ensures NoClash(Init({1, 2}), k) && Mine(Init({1, 2}), k.vrf, NEXT)
  {
  }

  /** Two VRFs, two prefixes, one next hop: after the second insert VRF 2 uses a gateway that has no
      neighbour entry in VRF 2. */
  lemma SharedNextHop()
    ensures exists s1, s2 ::
              && Succeeds(Init({1, 2}), NhopInsert(RibKey(1, AF_INET, 32, 5), NEXT, RtDefault), s1) && Tidy(s1, 2)
              && Succeeds(s1, NhopInsert(RibKey(2, AF_INET, 32, 6), NEXT, RtDefault), s2) && Core(s2, {})
              && !Counted(s2, {}, 2)
  {
    hide SlotsOk, TableOk, RefsOk, CountsOk, NeighBase, ResOk, NeighOk, FibOk, Counted, ToFib, NeighAcquire, First;
    var k1, k2 := RibKey(1, AF_INET, 32, 5), RibKey(2, AF_INET, 32, 6);
    var s1 := First(k1, RtDefault);
    FirstFacts(k1, RtDefault);
    AnyVrf(s1, 1, 2);
    assert CanInsert(s1, k2, NEXT, RtDefault, 7, 2);
    var s2 := Inserted(s1, k2, NEXT, RtDefault, 7, 2, 0, 0);
    InsertedCore(s1, k2, NEXT, RtDefault, 7, 2, 0, 0);
    assert !Mine(s1, 2, NEXT) by { assert k1 in s1.rib && 7 in Paths(s1, k1); }
    InsertedNeigh(s1, k2, NEXT, RtDefault, 7, 2, 0, 0);
    assert !Present(s1, k2, NEXT);
    assert Succeeds(s1, NhopInsert(k2, NEXT, RtDefault), s2);
  }

  /** Two RIB keys of one VRF that differ only below the mask: the second insert takes the FIB entry over. */
  lemma ClashingPrefixes()
    ensures exists s1, s2 ::
              && Succeeds(Init({1, 2}), NhopInsert(RibKey(1, AF_INET, 31, 4), NEXT, RtDefault), s1) && Tidy(s1, 1)
              && Succeeds(s1, NhopInsert(RibKey(1, AF_INET, 31, 5), NEXT, RtDefault), s2) && Core(s2, {})
              && !FibOk(s2)
  {
    hide SlotsOk, TableOk, RefsOk, CountsOk, NeighBase, ResOk, NeighOk, FibOk, ToFib, NeighAcquire, First;
    var k1, k2 := RibKey(1, AF_INET, 31, 4), RibKey(1, AF_INET, 31, 5);
    var s1 := First(k1, RtDefault);
    FirstFacts(k1, RtDefault);
    assert CanInsert(s1, k2, NEXT, RtDefault, 7, 2);
    var s2 := Inserted(s1, k2, NEXT, RtDefault, 7, 2, 0, 0);
    InsertedCore(s1, k2, NEXT, RtDefault, 7, 2, 0, 0);
    assert ToFib(k1) == ToFib(k2) by { SameMasked(); }
    assert k1 in s1.rib;
    InsertedFib(s1, k2, NEXT, RtDefault, 7, 2, 0, 0);
    assert !Present(s1, k2, NEXT);
    assert Succeeds(s1, NhopInsert(k2, NEXT, RtDefault), s2);
  }

  lemma SameMasked()
    ensures ToFib(RibKey(1, AF_INET, 31, 4)) == ToFib(RibKey(1, AF_INET, 31, 5))
  {
    assert Clear(4, 1) == Clear(5, 1);
  }

  /** Two paths of one multicast route: the second is stored past the end of the slot's array. */
  lemma MulticastOverrun()
    ensures exists s1, s2 ::
              && Succeeds(Init({1, 2}), NhopInsert(MULTI, NEXT, RtMroute), s1) && Core(s1, {})
              && Succeeds(s1, NhopInsert(MULTI, OTHER, RtMroute), s2) && Core(s2, {})
              && Fits(s1) && !Fits(s2)
  {
    hide SlotsOk, TableOk, RefsOk, CountsOk, NeighBase, ResOk, NeighOk, FibOk, ToFib, NeighAcquire, First;
    var s1 := First(MULTI, RtMroute);
    FirstFacts(MULTI, RtMroute);
    assert !Present(s1, MULTI, OTHER);
    assert CanInsert(s1, MULTI, OTHER, RtMroute, 8, 2);
    var s2 := Inserted(s1, MULTI, OTHER, RtMroute, 8, 2, 0, 0);
    InsertedCore(s1, MULTI, OTHER, RtMroute, 8, 2, 0, 0);
    assert Succeeds(s1, NhopInsert(MULTI, OTHER, RtMroute), s2);
    assert Paths(s2, MULTI) == [7, 8];
    assert MULTI in s2.rib;
  }

  /** What a successful insert makes of the tables, as far as the next insert depends on it. */
  ghost predicate Added(s: State, k: RibKey, n: NhKey, t: RibType, p: Ptr, id: nat, s': State) {
    && InRange(s) && InRange(s') && k in s'.rib
    && s'.rib == s.rib[k := id] && s'.ribCnt.Keys == s.ribCnt.Keys && s'.nb.cnt.Keys == s.nb.cnt.Keys
    && s'.res == (if k in s.rib then s.res - {s.rib[k]} else s.res)[id := s'.res[id]]
    && s'.res[id].mpath == OldPaths(s, k) + [p] && s'.res[id].mpathMax == MaxPaths(t) && RtypeOf(s'.res[id]) == t
    && s'.nhops == s.nhops[n := p] && s'.heap.Keys == s.heap.Keys + {p} && s'.heap[p].key == n
    && forall q <- s.heap | q != p :: s'.heap[q].key == s.heap[q].key
  }

  lemma AddPath(s: State, k: RibKey, n: NhKey, t: RibType, p: Ptr, id: nat)
    requires Core(s, {}) && CanInsert(s, k, n, t, p, id) && !Present(s, k, n)
    ensures var s' := Inserted(s, k, n, t, p, id, 0, 0); Core(s', {}) && Succeeds(s, NhopInsert(k, n, t), s')
  {
    hide SlotsOk, RefsOk, CountsOk, NeighBase, ResOk, Inserted, Present;
    InsertedCore(s, k, n, t, p, id, 0, 0);
  }

  lemma AddedPath(s: State, k: RibKey, n: NhKey, t: RibType, p: Ptr, id: nat)
    requires Core(s, {}) && CanInsert(s, k, n, t, p, id) && Core(Inserted(s, k, n, t, p, id, 0, 0), {})
    ensures Added(s, k, n, t, p, id, Inserted(s, k, n, t, p, id, 0, 0))
  {
    hide SlotsOk, RefsOk, CountsOk, NeighBase, ResOk, ToFib, NeighAcquire, Present;
    assert n in s.nhops ==> s.heap[p].key == n;
    hide TableOk;
    InRangeOf(Inserted(s, k, n, t, p, id, 0, 0), {});
  }

  /** The multicast route is in `slot` with the listed paths, and the other route in slot 2. */
  ghost predicate Stage(s: State, used: set<nat>, slot: nat, ps: seq<Ptr>, ns: seq<NhKey>) {
    && Core(s, {}) && s.rib == map[MULTI := slot, PLAIN := 2] && s.res.Keys == used && slot in used
    && 1 in s.ribCnt && 1 in s.nb.cnt
    && s.res[slot].mpath == ps && s.res[slot].mpathMax == MROUTE_MAX_ECMP && s.res[slot].flags.mroute
    && NextHopsAre(s, ps, ns)
  }

  /** The live next hops, with their keys. */
  ghost predicate NextHopsAre(s: State, ps: seq<Ptr>, ns: seq<NhKey>) {
    && s.heap.Keys == Elems(ps) && s.nhops.Keys == Elems(ns)
    && |ps| == |ns| && forall i | 0 <= i < |ps| :: ps[i] in s.heap && s.heap[ps[i]].key == ns[i]
  }

  ghost predicate FreeIn(used: set<nat>, id: nat) {
    id !in used && forall j: nat | j < id :: j in used
  }

  lemma StageCan(s: State, used: set<nat>, slot: nat, ps: seq<Ptr>, ns: seq<NhKey>, n: NhKey, p: Ptr, id: nat)
    requires Stage(s, used, slot, ps, ns) && |ps| < MROUTE_MAX_ECMP && p !in ps && FreeIn(used, id)
    requires n !in ns && forall m <- ns :: !NhopEqual(m, n)
    ensures CanInsert(s, MULTI, n, RtMroute, p, id) && !Present(s, MULTI, n)
  {
    hide SlotsOk, TableOk, RefsOk, CountsOk, NeighBase, ResOk;
    assert Paths(s, MULTI) == ps;
    forall q <- ps ensures !NhopEqual(s.heap[q].key, n) {
      var i :| 0 <= i < |ps| && ps[i] == q;
      assert ns[i] in ns;
    }
  }

  lemma NextHopsAdded(s: State, s': State, ps: seq<Ptr>, ns: seq<NhKey>, n: NhKey, p: Ptr)
    requires NextHopsAre(s, ps, ns) && p !in ps
    requires s'.nhops.Keys == s.nhops.Keys + {n} && s'.heap.Keys == s.heap.Keys + {p} && s'.heap[p].key == n
    requires forall q <- s.heap | q != p :: s'.heap[q].key == s.heap[q].key
    ensures NextHopsAre(s', ps + [p], ns + [n])
  {
    assert Elems(ps + [p]) == Elems(ps) + {p} && Elems(ns + [n]) == Elems(ns) + {n};
    hide Elems;
    forall i | 0 <= i < |ps + [p]| ensures (ps + [p])[i] in s'.heap && s'.heap[(ps + [p])[i]].key == (ns + [n])[i] {
    }
  }

  lemma StageAdded(
    s: State, s': State, used: set<nat>, slot: nat, ps: seq<Ptr>, ns: seq<NhKey>, n: NhKey, p: Ptr, id: nat)
    requires Stage(s, used, slot, ps, ns) && p !in ps && id !in used
    requires Core(s', {}) && Added(s, MULTI, n, RtMroute, p, id, s')
    ensures Stage(s', used - {slot} + {id}, id, ps + [p], ns + [n])
  {
    hide Core, NextHopsAre;
    NextHopsAdded(s, s', ps, ns, n, p);
    assert s'.res.Keys == used - {slot} + {id};
  }

  lemma StageNext(s: State, used: set<nat>, slot: nat, ps: seq<Ptr>, ns: seq<NhKey>, n: NhKey, p: Ptr, id: nat)
    requires Stage(s, used, slot, ps, ns) && |ps| < MROUTE_MAX_ECMP && p !in ps && FreeIn(used, id)
    requires n !in ns && forall m <- ns :: !NhopEqual(m, n)
    ensures exists s' :: Succeeds(s, NhopInsert(MULTI, n, RtMroute), s')
                      && Stage(s', used - {slot} + {id}, id, ps + [p], ns + [n])
  {
    hide Inserted, CanInsert, Present, Succeeds, Stage, Added;
    assert Core(s, {}) by { StageCore(s, used, slot, ps, ns); }
    hide Core;
    StageCan(s, used, slot, ps, ns, n, p, id);
    AddPath(s, MULTI, n, RtMroute, p, id);
    AddedPath(s, MULTI, n, RtMroute, p, id);
    StageAdded(s, Inserted(s, MULTI, n, RtMroute, p, id, 0, 0), used, slot, ps, ns, n, p, id);
  }

  lemma StageCore(s: State, used: set<nat>, slot: nat, ps: seq<Ptr>, ns: seq<NhKey>)
    requires Stage(s, used, slot, ps, ns)
    ensures Core(s, {}) && InRange(s) && MULTI in s.rib && PLAIN in s.rib && Paths(s, MULTI) == ps
    ensures s.rib[MULTI] == slot && s.rib[PLAIN] == 2
  {
    InRangeOf(s, {});
    hide Core;
  }

  lemma TwoRoutes()
    ensures exists s, s' ::
              && Succeeds(Init({1, 2}), NhopInsert(MULTI, NEXT, RtMroute), s)
              && Succeeds(s, NhopInsert(PLAIN, NEXT, RtDefault), s') && Stage(s', {0, 1, 2}, 1, [7], [NEXT])
  {
    hide SlotsOk, TableOk, RefsOk, CountsOk, NeighBase, ResOk, ToFib, First, Inserted, Tidy, Step;
    var s := First(MULTI, RtMroute);
    FirstFacts(MULTI, RtMroute);
    TidyCore(s, 1);
    assert CanInsert(s, PLAIN, NEXT, RtDefault, 7, 2);
    AddPath(s, PLAIN, NEXT, RtDefault, 7, 2);
    AddedPath(s, PLAIN, NEXT, RtDefault, 7, 2);
    assert Stage(Inserted(s, PLAIN, NEXT, RtDefault, 7, 2, 0, 0), {0, 1, 2}, 1, [7], [NEXT]);
  }

  /** Three paths of a multicast route around the slot of another route: its second path is stored in the memory
      of the other route's slot. */
  lemma RouteOverwritten()
    ensures exists s1, s2, s3, s4 ::
              && Succeeds(Init({1, 2}), NhopInsert(MULTI, NEXT, RtMroute), s1)
              && Succeeds(s1, NhopInsert(PLAIN, NEXT, RtDefault), s2)
              && Succeeds(s2, NhopInsert(MULTI, OTHER, RtMroute), s3)
              && Succeeds(s3, NhopInsert(MULTI, THIRD, RtMroute), s4) && Core(s4, {})
              && MULTI in s4.rib && PLAIN in s4.rib
              && |Paths(s4, MULTI)| == 3 && PathHome(s4.rib[MULTI], 1) == s4.rib[PLAIN]
  {
    hide Core, Succeeds, Stage;
    TwoRoutes();
    var s1, s2 :|
      && Succeeds(Init({1, 2}), NhopInsert(MULTI, NEXT, RtMroute), s1)
      && Succeeds(s1, NhopInsert(PLAIN, NEXT, RtDefault), s2) && Stage(s2, {0, 1, 2}, 1, [7], [NEXT]);
    StageNext(s2, {0, 1, 2}, 1, [7], [NEXT], OTHER, 8, 3);
    var used := {0, 1, 2} - {1} + {3};
    var s3 :| Succeeds(s2, NhopInsert(MULTI, OTHER, RtMroute), s3) && Stage(s3, used, 3, [7] + [8], [NEXT] + [OTHER]);
    StageNext(s3, used, 3, [7] + [8], [NEXT] + [OTHER], THIRD, 9, 1);
    var s4 :| Succeeds(s3, NhopInsert(MULTI, THIRD, RtMroute), s4)
           && Stage(s4, used - {3} + {1}, 1, [7] + [8] + [9], [NEXT] + [OTHER] + [THIRD]);
    StageCore(s4, used - {3} + {1}, 1, [7] + [8] + [9], [NEXT] + [OTHER] + [THIRD]);
  }

  lemma StaticTaken(s: State, k: RibKey)
    requires FirstShape(s, k, RtDefault)
    ensures var n := NeighStatic(s.nb, 1, GATEWAY, 0); 1 in n.cnt && !NoneTakenOver(n, 1)
  {
    assert NeighKey(1, GATEWAY) in NeighStatic(s.nb, 1, GATEWAY, 0).tbl;
  }

  /** The VRF is deleted and added again. */
  lemma Stale(s: State, k: RibKey)
    requires Tidy(s, 1) && 1 in s.nb.cnt && s.rib.Keys == {k} && k.vrf == 1 && !NoneTakenOver(s.nb, 1)
    ensures exists s', s'' ::
              && Succeeds(s, RouteCleanup(1), s') && Tidy(s', 1)
              && Succeeds(s', VrfReset(1), s'') && s''.rib == map[] && !CntOk(s''.nb)
  {
    hide SlotsOk, RoutesOk, TableOk, RefsOk, CountsOk, NeighBase, NeighOk, FibOk, CntOk, DropAll, NeighReset,
         NoneTakenOver;
    assert Lists([k], s, 1);
    var s' := DropAll(s, [k]);
    CleanupTidy(s, 1, s', 1);
    CleanupReset(s, 1, [k]);
    var s'' := s'.(nb := NeighReset(s'.nb, 1));
    assert Succeeds(s, RouteCleanup(1), s') && Succeeds(s', VrfReset(1), s'');
  }

  /** A route whose gateway is then added statically, the VRF deleted and added again: the entry is left, and the
      counter of the new VRF does not count it. */
  lemma StaleNeighbour()
    ensures exists s1, s2, s3, s4 ::
              && Succeeds(Init({1, 2}), NhopInsert(RibKey(1, AF_INET, 32, 5), NEXT, RtDefault), s1) && Tidy(s1, 1)
              && Succeeds(s1, NeighAddStatic(1, GATEWAY, 0), s2) && Tidy(s2, 1)
              && Succeeds(s2, RouteCleanup(1), s3) && Tidy(s3, 1)
              && Succeeds(s3, VrfReset(1), s4) && s4.rib == map[] && !CntOk(s4.nb)
  {
    hide SlotsOk, RoutesOk, TableOk, RefsOk, CountsOk, NeighBase, Tidy, CntOk, NeighStatic, NeighReset, NoneTakenOver,
         First;
    var k := RibKey(1, AF_INET, 32, 5);
    var s1 := First(k, RtDefault);
    FirstFacts(k, RtDefault);
    var s2 := s1.(nb := NeighStatic(s1.nb, 1, GATEWAY, 0));
    TidyCore(s1, 1);
    StaticTidy(s1, 1, GATEWAY, 0, 1);
    StaticTaken(s1, k);
    assert Succeeds(s1, NeighAddStatic(1, GATEWAY, 0), s2);
    Stale(s2, k);
  }
}
