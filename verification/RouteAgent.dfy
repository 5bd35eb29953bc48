/** The agent itself: the operations of route.c and neigh.c on mutable tables, with their rollback paths.

    Allocations and table inserts may fail at any point; a hash update of a key that is present does not.
    Memory is a map from addresses to next hops, so that path lists hold addresses and share them. */
module RouteAgent {
  import opened Sequences
  import opened RouteState
  import opened RouteInv
  import opened RouteOps
  import opened RouteAbs
  import opened RouteFib
  import opened RouteReset
  import opened RouteRuns
  import opened RouteFacts

  lemma PresentMeans(s: State, k: RibKey, n: NhKey)
    requires RoutesOk(s) && k in s.rib && ResOk(s.res[s.rib[k]], s.heap)
    ensures Present(s, k, n) <==>
            exists p <- Paths(s, k) :: s.heap[p].key.tunnel == n.tunnel && (n.tunnel.Vxlan? ==> s.heap[p].key == n)
  {
    forall m: NhKey ensures NhopEqual(m, n) <==> m.tunnel == n.tunnel && (n.tunnel.Vxlan? ==> m == n) {
      NhopEqualMeans(m, n);
    }
  }

  /** What the second half of an insert may rely on. */
  lemma LinkFacts(s: State, k: RibKey, n: NhKey, t: RibType, p: Ptr, nhOid: nat, neighOid: nat)
    requires Core(s, {}) && k.vrf in s.nb.cnt && Designates(s, n, p) && Accepts(s, k, n, t)
    ensures var s1 := Acquire(s, k.vrf, n, p, nhOid, neighOid);
            && NeighBase(s1.nb) && (forall q <- OldPaths(s, k) + [p] :: q in s1.heap)
            && p in s1.heap && s1.heap[p].refCount > 0 && s1.heap[p].key in s1.nhops
            && (k in s.rib ==> t.RtMroute? && s.rib[k] in s1.res)
            && Release(s1, k.vrf, p) == s
  {
    hide SlotsOk, CountsOk, NeighBase;
    AcquireRelease(s, k.vrf, n, p, nhOid, neighOid);
    AcquireCore(s, k.vrf, n, p, nhOid, neighOid);
    if k in s.rib {
      assert ResOk(s.res[s.rib[k]], s.heap);
    }
    ExtendedOk(s, k, n, t, p, nhOid, neighOid);
  }

  lemma VrfsOf(s: State)
    requires Core(s, {})
    ensures RoutesOk(s) && InRange(s) && s.nb.cnt.Keys == s.ribCnt.Keys
  {
    hide SlotsOk, TableOk, RefsOk, NeighBase, ResOk;
  }

  lemma LinkDone(s: State, k: RibKey, n: NhKey, t: RibType, p: Ptr, id: nat, nhOid: nat, neighOid: nat)
    requires Core(s, {}) && FibSafe(s) && CanInsert(s, k, n, t, p, id)
    ensures var s' := Inserted(s, k, n, t, p, id, nhOid, neighOid);
            Core(s', {}) && FibSafe(s') && InsertStep(s, k, n, t, Ok, s')
  {
    hide SlotsOk, TableOk, RefsOk, CountsOk, NeighBase, ResOk, Designates, NextFree, FibSafe;
    InsertedCore(s, k, n, t, p, id, nhOid, neighOid);
    InsertedSafe(s, k, n, t, p, id, nhOid, neighOid);
  }

  /** The state that the publication of the new list leaves is that of a successful insert. */
  lemma Published(s: State, k: RibKey, n: NhKey, t: RibType, p: Ptr, id: nat, nhOid: nat, neighOid: nat, s': State)
    requires Core(s, {}) && FibSafe(s) && k.vrf in s.ribCnt && k.vrf in s.nb.cnt && k.len <= 32
    requires Accepts(s, k, n, t) && Designates(s, n, p)
    requires var s1 := Acquire(s, k.vrf, n, p, nhOid, neighOid);
             && (t.RtMroute? || |OldPaths(s, k)| == 0) && p in s1.heap
             && NextFree(s1, id) && s' == Install(s1, k, id, RouteRes(s1.heap, OldPaths(s, k) + [p], FlagsAt(s1, k), t))
    ensures Core(s', {}) && FibSafe(s') && InsertStep(s, k, n, t, Ok, s')
  {
    hide SlotsOk, TableOk, RefsOk, CountsOk, NeighBase, ResOk, FibSafe, Acquire, Accepts, Designates, Install,
         InsertStep;
    LinkDone(s, k, n, t, p, id, nhOid, neighOid);
  }

  lemma LinkFailed(s: State, k: RibKey, n: NhKey, t: RibType, st: Status)
    requires Core(s, {}) && Accepts(s, k, n, t) && Starved(st)
    ensures InsertStep(s, k, n, t, st, s)
  {
    hide SlotsOk, TableOk, RefsOk, CountsOk, NeighBase, ResOk;
  }

  /** What a delete may rely on once it has found the path. */
  lemma DeleteFacts(s: State, k: RibKey, n: NhKey, t: RibType, i: nat)
    requires Core(s, {}) && RemovesKey(s, k, i, n) && RtypeOf(s.res[s.rib[k]]) == t
    ensures RoutesOk(s) && Linked(s, k, n) && Distinct(Paths(s, k))
    ensures k.vrf in s.nb.cnt && k.vrf in s.ribCnt && k.len <= 32
    ensures forall p <- RemoveAt(Paths(s, k), i) :: p in s.heap
    ensures |Paths(s, k)| > 1 ==> t.RtMroute?
  {
    hide SlotsOk, TableOk, RefsOk, NeighBase;
    assert ResOk(s.res[s.rib[k]], s.heap);
    RoutePaths(s, k);
    RemoveAtMembers(Paths(s, k), i);
  }

  lemma UnlinkFacts(s: State, k: RibKey, i: nat, id: nat)
    requires Core(s, {}) && CanRemove(s, k, i, id)
    ensures var u, p := Unlinked(s, k, i, id), Paths(s, k)[i];
            && NeighBase(u.nb) && k.vrf in u.nb.cnt
            && p in u.heap && u.heap[p].refCount > 0 && u.heap[p].key in u.nhops
  {
    hide SlotsOk, RoutesOk, CountsOk, NeighBase, Unlinked, Users;
    UnlinkedCore(s, k, i, id);
  }

  lemma DeleteFailed(s: State, k: RibKey, n: NhKey, t: RibType, st: Status)
    requires Core(s, {}) && Linked(s, k, n) && RtypeOf(s.res[s.rib[k]]) == t
    requires |Paths(s, k)| > 1 && st in {ResultNoSpace, PrefixNoSpace}
    ensures DeleteStep(s, k, n, t, st, s)
  {
    hide SlotsOk, TableOk, RefsOk, CountsOk, NeighBase, ResOk;
  }

  lemma DeleteDone(s: State, k: RibKey, n: NhKey, t: RibType, i: nat, id: nat)
    requires Core(s, {}) && FibSafe(s) && CanRemove(s, k, i, id) && RemovesKey(s, k, i, n)
    requires RtypeOf(s.res[s.rib[k]]) == t && Linked(s, k, n)
    ensures var s' := Removed(s, k, i, id); Core(s', {}) && FibSafe(s') && DeleteStep(s, k, n, t, Ok, s')
  {
    hide SlotsOk, TableOk, RefsOk, CountsOk, NeighBase, ResOk, Linked, FibSafe;
    RemovedCore(s, k, i, id);
    RemovedSafe(s, k, i, id);
  }

  lemma ReleaseNext(s: State, v: Vrf, ps: seq<Ptr>, i: nat)
    requires i < |ps| && v in s.nb.cnt && Distinct(ps[i..]) && Core(s, Elems(ps[i..]))
    ensures NeighBase(s.nb) && ps[i] in s.heap && s.heap[ps[i]].refCount > 0 && s.heap[ps[i]].key in s.nhops
    ensures var s' := Release(s, v, ps[i]);
            && v in s'.nb.cnt && Distinct(ps[i + 1..]) && Core(s', Elems(ps[i + 1..]))
            && ReleaseAll(s', v, ps[i + 1..]) == ReleaseAll(s, v, ps[i..])
  {
    hide SlotsOk, RoutesOk, CountsOk, NeighBase, Release, Users;
    ReleaseHead(s, v, ps[i..]);
    assert ps[i..][1..] == ps[i + 1..];
  }

  lemma ReleaseNone(s: State, v: Vrf, ps: seq<Ptr>)
    requires v in s.nb.cnt && ps == [] && Core(s, Elems(ps))
    ensures ReleaseAll(s, v, ps) == s
  {
    hide Core;
  }

  lemma NoneDropped(s: State)
    requires Core(s, {})
    ensures Distinct<RibKey>([]) && Elems<RibKey>([]) == {} && DropAll(s, []) == s
  {
    hide Core;
  }

  lemma CleanupDone(s: State, v: Vrf, ks: seq<RibKey>)
    requires Core(s, {}) && Distinct(ks) && Elems(ks) == KeysOf(s.rib, v)
    ensures Elems(ks) <= s.rib.Keys && Step(s, RouteCleanup(v), Ok, DropAll(s, ks))
  {
    hide Core, DropAll;
    assert Lists(ks, s, v);
  }

  lemma DropIs(s: State, k: RibKey, st: Status, s': State)
    requires Core(s, {}) && k in s.rib && Step(s, RouteDelete(k), st, s')
    ensures s' == Dropped(s, k)
  {
    hide Core, Dropped;
  }

  lemma OneMore(s: State, v: Vrf, ks: seq<RibKey>, k: RibKey)
    requires Core(s, {}) && Distinct(ks) && Elems(ks) <= s.rib.Keys && k in DropAll(s, ks).rib && k.vrf == v
    ensures Distinct(ks + [k]) && Elems(ks + [k]) == Elems(ks) + {k}
    ensures k in s.rib && k !in Elems(ks) && k in KeysOf(s.rib, v)
  {
    hide Core;
  }

  lemma DropOneMore(s: State, ks: seq<RibKey>, k: RibKey)
    requires Core(s, {}) && Distinct(ks + [k]) && Elems(ks + [k]) <= s.rib.Keys
    requires Distinct(ks) && Elems(ks) <= s.rib.Keys && k in DropAll(s, ks).rib
    ensures DropAll(s, ks + [k]) == Dropped(DropAll(s, ks), k)
  {
    hide Core;
    assert (ks + [k])[..|ks + [k]| - 1] == ks;
  }

  lemma NhopFacts(s: State, n: NhKey)
    requires Core(s, {})
    ensures NeighBase(s.nb) && (n in s.nhops ==> s.nhops[n] in s.heap)
  {
    hide SlotsOk, RoutesOk, RefsOk, CountsOk, NeighBase;
  }

  lemma StaticStep(s: State, v: Vrf, g: nat, mac: nat)
    requires Core(s, {})
    ensures Core(s.(nb := NeighStatic(s.nb, v, g, mac)), {})
  {
    hide SlotsOk, RoutesOk, TableOk, RefsOk, CountsOk, NeighBase, NeighStatic;
    StepRefines(s, NeighAddStatic(v, g, mac), Ok, s.(nb := NeighStatic(s.nb, v, g, mac)));
  }

  class Agent {
    var rib: map<RibKey, nat>
    var fib: map<FibKey, nat>
    const cells: array<FibRes>
    var used: set<nat>
    var ribCnt: map<Vrf, int>
    var nhops: map<NhKey, Ptr>
    var heap: map<Ptr, Nhop>
    var neighTbl: map<NeighKey, Neigh>
    var neighCount: int
    var neighCnt: map<Vrf, int>

    ghost predicate Rep()
      reads this`used
    {
      forall i <- used :: i < cells.Length
    }

    ghost function Res(): map<nat, FibRes>
      requires Rep()
      reads this`used, cells
    {
      map i | i in used :: cells[i]
    }

    ghost function Nb(): NeighTable
      reads this`neighTbl, this`neighCount, this`neighCnt
    {
      NeighTable(neighTbl, neighCount, neighCnt)
    }

    ghost function S(): State
      requires Rep()
      reads this, cells
    {
      State(rib, fib, Res(), ribCnt, nhops, heap, Nb())
    }

    ghost predicate Valid()
      reads this, cells
    {
      Rep() && Core(S(), {}) && FibSafe(S())
    }

    constructor (vrfs: set<Vrf>)
      ensures Valid() && S() == Init(vrfs) && cells.Length == NTB_NR_FIB_RES_ALL + 1 && fresh(cells)
    {
      rib, fib, nhops, heap, neighTbl := map[], map[], map[], map[], map[];
      ribCnt, neighCnt, neighCount := map v | v in vrfs :: 0, map v | v in vrfs :: 0, 0;
      cells := new FibRes[NTB_NR_FIB_RES_ALL + 1](_ => FibRes(0, NO_FLAGS, [], 0));
      used := {BLACKHOLE};
      new;
      cells[BLACKHOLE] := cells[BLACKHOLE].(flags := cells[BLACKHOLE].flags.(reject := true));
      assert Res() == map[BLACKHOLE := BLACKHOLE_RES];
      hide Core;
      InitCore(vrfs);
    }

    // -------------------------------------------------------------------------------------------
    // Neighbours

    method NeighAdd(v: Vrf, g: nat) returns (st: Status, oid: nat)
      requires v in neighCnt
      modifies this`neighTbl, this`neighCount, this`neighCnt
      ensures st != Ok ==> Nb() == old(Nb())
      ensures st == Ok ==> Nb() == NeighAcquire(old(Nb()), v, g, oid) && Nb().tbl[NeighKey(v, g)].oid == oid
      ensures st in {Ok, NoMem, HashFull, NeighOidFail}
    {
      var key := NeighKey(v, g);
      st, oid := Ok, 0;
      if key in neighTbl {
        neighTbl := neighTbl[key := neighTbl[key].(refcnt := neighTbl[key].refcnt + 1)];
        return Ok, neighTbl[key].oid;
      }
      var mallocOk: bool := *;
      if !mallocOk {
        return NoMem, 0;
      }
      var addOk: bool := *;
      if !addOk {
        return HashFull, 0;
      }
      neighTbl := neighTbl[key := Neigh(0, 1, false, true, false, 0)];
      var oidOk: bool := *;
      var newOid: nat := *;
      if !oidOk {
        neighTbl := neighTbl - {key};
        assert neighTbl == old(neighTbl);
        return NeighOidFail, 0;
      }
      neighTbl := neighTbl[key := neighTbl[key].(oid := newOid)];
      neighCnt := neighCnt[v := neighCnt[v] + 1];
      neighCount := neighCount + 1;
      oid := newOid;
    }

    method NeighDel(v: Vrf, g: nat)
      requires v in neighCnt && NeighBase(Nb())
      modifies this`neighTbl, this`neighCount, this`neighCnt
      ensures Nb() == NeighRelease(old(Nb()), v, g)
    {
      var key := NeighKey(v, g);
      if key !in neighTbl {
        return;
      }
      neighTbl := neighTbl[key := neighTbl[key].(refcnt := neighTbl[key].refcnt - 1)];
      if neighTbl[key].refcnt > 0 {
        return;
      }
      neighCnt := neighCnt[v := neighCnt[v] - 1];
      neighCount := neighCount - 1;
      neighTbl := neighTbl - {key};
    }

    method NeighAddStaticEntry(v: Vrf, g: nat, mac: nat) returns (st: Status)
      requires Valid()
      modifies this
      ensures Valid() && Step(old(S()), NeighAddStatic(v, g, mac), st, S())
    {
      hide Core, FibSafe, Res;
      var key := NeighKey(v, g);
      if key !in neighTbl {
        var mallocOk: bool := *;
        if !mallocOk {
          return NoMem;
        }
        var addOk: bool := *;
        if !addOk {
          return HashFull;
        }
        neighTbl := neighTbl[key := Neigh(0, 0, false, false, false, 0)];
        neighCount := neighCount + 1;
      }
      if !neighTbl[key].isStatic {
        neighTbl := neighTbl[key := neighTbl[key].(refcnt := neighTbl[key].refcnt + 1)];
      }
      neighTbl := neighTbl[key := neighTbl[key].(isStatic := true, dmac := mac, arpValid := true)];
      st := Ok;
      StaticStep(old(S()), v, g, mac);
      assert S() == old(S()).(nb := NeighStatic(old(S()).nb, v, g, mac));
      StepSafe(old(S()), NeighAddStatic(v, g, mac), st, S());
    }

    /** What adding a VRF does to these tables. */
    method ResetVrf(v: Vrf)
      requires Valid() && v in neighCnt
      modifies this`neighCnt
      ensures Valid() && Step(old(S()), VrfReset(v), Ok, S())
    {
      hide Core, FibSafe, Res;
      neighCnt := neighCnt[v := 0];
      assert S() == old(S()).(nb := NeighReset(old(S()).nb, v));
      ResetCore(old(S()), v);
      StepSafe(old(S()), VrfReset(v), Ok, S());
    }

    // -------------------------------------------------------------------------------------------
    // Next hops

    /** Takes the neighbour reference of a new next hop and allocates its object ids, or does neither. */
    method NhopResolve(v: Vrf, g: nat) returns (st: Status, neighOid: nat, nhOid: nat)
      requires v in neighCnt && NeighBase(Nb())
      modifies this`neighTbl, this`neighCount, this`neighCnt
      ensures st in {Ok, NoMem, HashFull, NeighOidFail, NhOidFail}
      ensures st != Ok || g == 0 ==> Nb() == old(Nb())
      ensures st == Ok && g == 0 ==> neighOid == 0
      ensures st == Ok && g != 0 ==>
                Nb() == NeighAcquire(old(Nb()), v, g, neighOid) && Nb().tbl[NeighKey(v, g)].oid == neighOid
    {
      ghost var n0 := Nb();
      st, neighOid, nhOid := Ok, 0, 0;
      if g != 0 {
        st, neighOid := NeighAdd(v, g);
        if st != Ok {
          return;
        }
      }
      var oidOk: bool := *;
      nhOid := *;
      if !oidOk {
        if g != 0 {
          NeighAcquireBase(n0, v, g, neighOid);
          NeighDel(v, g);
          NeighRoundTrip(n0, v, g, neighOid);
        }
        st := NhOidFail;
      }
    }

    /** A new next hop with no references yet, in the table and resolved; or no change. */
    method NhopObjNew(v: Vrf, n: NhKey) returns (st: Status, p: Ptr, neighOid: nat, nhOid: nat)
      requires v in neighCnt && NeighBase(Nb()) && n !in nhops
      modifies this`nhops, this`heap, this`neighTbl, this`neighCount, this`neighCnt
      ensures st in {Ok, NoMem, HashFull, NeighOidFail, NhOidFail}
      ensures st != Ok ==> nhops == old(nhops) && heap == old(heap)
      ensures st == Ok ==> p !in old(heap) && nhops == old(nhops)[n := p]
      ensures st == Ok ==> heap == old(heap)[p := Nhop(n, 0, neighOid, nhOid)]
      ensures st != Ok || n.gateway == 0 ==> Nb() == old(Nb())
      ensures st == Ok && n.gateway == 0 ==> neighOid == 0
      ensures st == Ok && n.gateway != 0 ==>
                && Nb() == NeighAcquire(old(Nb()), v, n.gateway, neighOid)
                && Nb().tbl[NeighKey(v, n.gateway)].oid == neighOid
    {
      st, p, neighOid, nhOid := Ok, *, 0, 0;
      if p in heap {
        return NoMem, p, 0, 0;
      }
      heap := heap[p := Nhop(n, 0, 0, 0)];
      var addOk: bool := *;
      if !addOk {
        heap := heap - {p};
        return HashFull, p, 0, 0;
      }
      nhops := nhops[n := p];
      st, neighOid, nhOid := NhopResolve(v, heap[p].key.gateway);
      if st != Ok {
        nhops := nhops - {n};
        heap := heap - {p};
        return;
      }
      heap := heap[p := heap[p].(neighOid := neighOid, nhOid := nhOid)];
    }

    method NhopObjCreate(v: Vrf, n: NhKey) returns (st: Status, p: Ptr, ghost nhOid: nat, ghost neighOid: nat)
      requires Valid() && v in neighCnt
      modifies this`nhops, this`heap, this`neighTbl, this`neighCount, this`neighCnt
      ensures st != Ok ==> S() == old(S()) && st in {NoMem, HashFull, NeighOidFail, NhOidFail}
      ensures st == Ok ==> Designates(old(S()), n, p) && S() == Acquire(old(S()), v, n, p, nhOid, neighOid)
    {
      hide Core, NeighBase, FibSafe, NeighAcquire, Res;
      NhopFacts(S(), n);
      st, nhOid, neighOid := Ok, 0, 0;
      if n !in nhops {
        var o1, o2;
        st, p, o1, o2 := NhopObjNew(v, n);
        if st != Ok {
          return;
        }
        neighOid, nhOid := o1, o2;
      } else {
        p := nhops[n];
      }
      heap := heap[p := heap[p].(refCount := heap[p].refCount + 1)];
    }

    method NhopObjDelete(v: Vrf, p: Ptr)
      requires Rep() && v in neighCnt && NeighBase(Nb())
      requires p in heap && heap[p].refCount > 0 && heap[p].key in nhops
      modifies this`nhops, this`heap, this`neighTbl, this`neighCount, this`neighCnt
      ensures S() == Release(old(S()), v, p)
    {
      heap := heap[p := heap[p].(refCount := heap[p].refCount - 1)];
      if heap[p].refCount > 0 {
        return;
      }
      var n := heap[p].key;
      nhops := nhops - {n};
      if n.gateway != 0 {
        NeighDel(v, n.gateway);
      }
      heap := heap - {p};
      assert heap == old(heap) - {p};
    }

    // -------------------------------------------------------------------------------------------
    // Slots

    method FibResIdAlloc() returns (id: int)
      requires Rep()
      modifies this`used, cells
      ensures Rep()
      ensures id < 0 ==> used == old(used) && forall i | 0 <= i < cells.Length :: cells[i] == old(cells[i])
      ensures id >= 0 ==> NextFree(old(S()), id) && used == old(used) + {id} && id < cells.Length
      ensures id >= 0 ==> cells[id] == FibRes(old(cells[id].oid), NO_FLAGS, [], ROUTE_MAX_ECMP)
      ensures forall i | 0 <= i < cells.Length && i != id :: cells[i] == old(cells[i])
    {
      id := 0;
      while id < cells.Length && id in used
        invariant 0 <= id <= cells.Length
        invariant forall j: nat | j < id :: j in used
      {
        id := id + 1;
      }
      if id == cells.Length {
        return -1;
      }
      used := used + {id};
      cells[id] := FibRes(cells[id].oid, NO_FLAGS, [], ROUTE_MAX_ECMP);
    }

    /** `prev` is the slot whose flags are inherited, or negative. */
    method FibResObjCreate(ps: seq<Ptr>, prev: int, t: RibType) returns (id: int)
      requires Rep() && (forall p <- ps :: p in heap) && (t.RtMroute? || |ps| == 1) && (prev >= 0 ==> prev in used)
      modifies this`used, cells
      ensures Rep()
      ensures id < 0 ==> S() == old(S())
      ensures id >= 0 ==>
                && NextFree(old(S()), id)
                && var inherited := if prev >= 0 then old(cells[prev].flags) else NO_FLAGS;
                   S() == old(S()).(res := old(Res())[id := RouteRes(heap, ps, inherited, t)])
    {
      ghost var res0 := Res();
      id := FibResIdAlloc();
      if id < 0 {
        assert Res() == res0;
        return;
      }
      var i := 0;
      while i < |ps|
        invariant 0 <= i <= |ps|
        invariant Rep() && used == old(used) + {id}
        invariant cells[id] == FibRes(old(cells[id].oid), NO_FLAGS, ps[..i], ROUTE_MAX_ECMP)
        invariant forall j | 0 <= j < cells.Length && j != id :: cells[j] == old(cells[j])
      {
        cells[id] := cells[id].(mpath := cells[id].mpath + [ps[i]]);
        i := i + 1;
      }
      assert ps[..i] == ps;
      if t.RtDefault? {
        if |ps| == 1 {
          cells[id] := cells[id].(oid := heap[ps[0]].nhOid);
        }
      } else {
        cells[id] := cells[id].(oid := |ps|);
      }
      if prev >= 0 {
        cells[id] := cells[id].(flags := cells[prev].flags);
      }
      match t {
        case RtDefault =>
          cells[id] := cells[id].(mpathMax := ROUTE_MAX_ECMP, flags := cells[id].flags.(mroute := false));
        case RtMroute =>
          cells[id] := cells[id].(mpathMax := MROUTE_MAX_ECMP, flags := cells[id].flags.(mroute := true));
      }
      assert Res() == res0[id := RouteRes(heap, ps, if prev >= 0 then old(cells[prev].flags) else NO_FLAGS, t)];
    }

    method FibResObjDelete(id: nat)
      requires Rep()
      modifies this`used
      ensures Rep() && S() == old(S()).(res := old(Res()) - {id})
    {
      used := used - {id};
      assert Res() == old(Res()) - {id};
    }

    // -------------------------------------------------------------------------------------------
    // Prefixes

    /** `prev` is the slot the prefix uses now, or negative if it is new. */
    method RtPrefixObjUpdate(k: RibKey, prev: int, id: nat) returns (st: Status)
      requires Rep() && k.vrf in ribCnt
      requires if prev >= 0 then k in rib && rib[k] == prev else k !in rib
      modifies this`rib, this`fib, this`ribCnt
      ensures st in {Ok, PrefixNoSpace}
      ensures st != Ok ==> S() == old(S())
      ensures st == Ok ==>
                && k.len <= 32
                && S() == old(S()).(
                     rib := old(rib)[k := id], fib := old(fib)[ToFib(k) := id],
                     ribCnt := if prev >= 0 then old(ribCnt) else old(ribCnt)[k.vrf := old(ribCnt)[k.vrf] + 1])
    {
      var ribOk: bool := *;
      if k !in rib && !ribOk {
        return PrefixNoSpace;
      }
      rib := rib[k := id];
      var fibOk: bool := *;
      if k.len > 32 || !fibOk {
        if prev < 0 {
          rib := rib - {k};
        } else {
          rib := rib[k := prev];
        }
        assert rib == old(rib);
        return PrefixNoSpace;
      }
      fib := fib[ToFib(k) := id];
      if prev < 0 {
        ribCnt := ribCnt[k.vrf := ribCnt[k.vrf] + 1];
      }
      st := Ok;
    }

    method RtPrefixObjDelete(k: RibKey)
      requires Rep() && k in rib && k.vrf in ribCnt
      modifies this`rib, this`fib, this`ribCnt
      ensures S() == old(S()).(
                rib := old(rib) - {k}, fib := old(fib) - {ToFib(k)},
                ribCnt := old(ribCnt)[k.vrf := old(ribCnt)[k.vrf] - 1])
    {
      fib := fib - {ToFib(k)};
      rib := rib - {k};
      ribCnt := ribCnt[k.vrf := ribCnt[k.vrf] - 1];
    }

    // -------------------------------------------------------------------------------------------
    // Operations

    method FindEqual(ps: seq<Ptr>, n: NhKey) returns (found: bool)
      requires forall p <- ps :: p in heap
      ensures found <==> exists p <- ps :: heap[p].key.tunnel == n.tunnel && (n.tunnel.Vxlan? ==> heap[p].key == n)
    {
      forall m: NhKey ensures NhopEqual(m, n) <==> m.tunnel == n.tunnel && (n.tunnel.Vxlan? ==> m == n) {
        NhopEqualMeans(m, n);
      }
      var i := 0;
      while i < |ps|
        invariant 0 <= i <= |ps|
        invariant forall j | 0 <= j < i :: !NhopEqual(heap[ps[j]].key, n)
      {
        if NhopEqual(heap[ps[i]].key, n) {
          return true;
        }
        i := i + 1;
      }
      return false;
    }

    /** The checks of an insert: either its outcome is settled with no change, or the new path is wanted. */
    method CheckInsert(k: RibKey, n: NhKey, t: RibType) returns (wanted: bool, st: Status, prev: int, ps: seq<Ptr>)
      requires Valid()
      ensures !wanted ==> InsertStep(S(), k, n, t, st, S())
      ensures wanted ==> Accepts(S(), k, n, t) && ps == OldPaths(S(), k) && prev == if k in rib then rib[k] else -1
    {
      hide TableOk, RefsOk, NeighBase, CountsOk, FibSafe;
      wanted, st, prev, ps := false, Ok, -1, [];
      if k in rib {
        prev := rib[k];
        assert ResOk(S().res[S().rib[k]], heap);
        if RtypeOf(cells[prev]) != t {
          return false, TypeNotSame, prev, ps;
        }
        if |cells[prev].mpath| >= cells[prev].mpathMax {
          return false, EcmpNoSpace, prev, ps;
        }
        ps := cells[prev].mpath;
        var found := FindEqual(ps, n);
        assert found <==> Present(S(), k, n) by { PresentMeans(S(), k, n); }
        if found {
          return;
        }
      }
      wanted := true;
    }

    /** Inserts the path; the status and the new list of the prefix follow from its type and its old list. */
    method InsertPath(k: RibKey, n: NhKey, t: RibType) returns (st: Status)
      requires Valid() && k.vrf in ribCnt
      modifies this, cells
      ensures Valid() && Step(old(S()), NhopInsert(k, n, t), st, S())
      ensures st == Ok ==>
                && var ns := PathsOf(Abs(old(S())), k);
                   PathsOf(Abs(S()), k) == ns + if Listed(ns, n) then [] else [n]
    {
      hide Core, FibSafe, InsertStep, Accepts, OldPaths, Abs, Listed;
      var wanted, prev, ps;
      wanted, st, prev, ps := CheckInsert(k, n, t);
      if wanted {
        st := LinkPath(k, n, t, prev, ps);
      }
      InsertEffect(old(S()), k, n, t, st, S());
    }

    /** The part of an insert that changes the tables. */
    method LinkPath(k: RibKey, n: NhKey, t: RibType, prev: int, ps: seq<Ptr>) returns (st: Status)
      requires Valid() && k.vrf in ribCnt && Accepts(S(), k, n, t)
      requires ps == OldPaths(S(), k) && prev == if k in rib then rib[k] else -1
      modifies this, cells
      ensures Valid() && InsertStep(old(S()), k, n, t, st, S())
    {
      ghost var s0 := S();
      var p;
      ghost var nhOid, neighOid;
      VrfsOf(s0);
      hide Core, RoutesOk, NeighBase, Acquire, Release, Accepts, InsertStep, FibSafe, Designates, Install, RouteRes,
           FlagsAt, NextFree;
      st, p, nhOid, neighOid := NhopObjCreate(k.vrf, n);
      if st != Ok {
        LinkFailed(s0, k, n, t, st);
        return;
      }
      LinkFacts(s0, k, n, t, p, nhOid, neighOid);
      ghost var id;
      st, id := Republish(k, prev, ps + [p], t);
      if st != Ok {
        NhopObjDelete(k.vrf, p);
        LinkFailed(s0, k, n, t, st);
      } else {
        Published(s0, k, n, t, p, id, nhOid, neighOid, S());
      }
    }

    /** The position of address `p` in a path list, or its length. */
    method FindPath(ps: seq<Ptr>, p: Ptr) returns (i: nat)
      ensures i <= |ps| && (i < |ps| ==> ps[i] == p) && p !in ps[..i]
    {
      i := 0;
      while i < |ps| && ps[i] != p
        invariant i <= |ps| && p !in ps[..i]
      {
        i := i + 1;
      }
    }

    /** The path list without address `p`, which occurs once, at position `i`. */
    method OtherPaths(ps: seq<Ptr>, p: Ptr, ghost i: nat) returns (qs: seq<Ptr>)
      requires i < |ps| && ps[i] == p && Distinct(ps)
      ensures qs == RemoveAt(ps, i)
    {
      qs := [];
      var j := 0;
      while j < |ps|
        invariant 0 <= j <= |ps|
        invariant qs == if j <= i then ps[..j] else ps[..i] + ps[i + 1..j]
      {
        if ps[j] != p {
          qs := qs + [ps[j]];
        }
        j := j + 1;
      }
    }

    /** The checks of a delete: either its outcome is settled with no change, or the path is at position `i`. */
    method CheckDelete(k: RibKey, n: NhKey, t: RibType) returns (wanted: bool, st: Status, i: nat)
      requires Valid()
      ensures !wanted ==> DeleteStep(S(), k, n, t, st, S())
      ensures wanted ==> RemovesKey(S(), k, i, n) && RtypeOf(cells[rib[k]]) == t
      ensures wanted ==> n in nhops && Paths(S(), k)[i] == nhops[n]
    {
      hide RefsOk, NeighBase, CountsOk, FibSafe;
      wanted, st, i := false, Ok, 0;
      if k !in rib {
        return;
      }
      assert ResOk(S().res[S().rib[k]], heap);
      if RtypeOf(cells[rib[k]]) != t {
        st := TypeNotSame;
        return;
      }
      if n !in nhops {
        return;
      }
      i := FindPath(cells[rib[k]].mpath, nhops[n]);
      assert cells[rib[k]].mpath[..|cells[rib[k]].mpath|] == cells[rib[k]].mpath;
      wanted := i < |cells[rib[k]].mpath|;
    }

    /** Takes path `i` out of the prefix, and the prefix out of the tables with its last path. */
    method Unlink(k: RibKey, n: NhKey, t: RibType, i: nat) returns (st: Status, ghost id: nat)
      requires Valid() && RemovesKey(S(), k, i, n) && RtypeOf(cells[rib[k]]) == t
      requires n in nhops && Paths(S(), k)[i] == nhops[n]
      modifies this`used, this`rib, this`fib, this`ribCnt, cells
      ensures Rep() && st in {Ok, ResultNoSpace, PrefixNoSpace}
      ensures st != Ok ==> S() == old(S()) && |Paths(S(), k)| > 1
      ensures st == Ok ==> CanRemove(old(S()), k, i, id) && S() == Unlinked(old(S()), k, i, id)
    {
      hide Core, RoutesOk, Linked, FibSafe;
      ghost var s0 := S();
      DeleteFacts(s0, k, n, t, i);
      st, id := Ok, 0;
      var prev := rib[k];
      var ps := cells[prev].mpath;
      if |ps| == 1 {
        RtPrefixObjDelete(k);
        FibResObjDelete(prev);
      } else {
        var qs := OtherPaths(ps, nhops[n], i);
        st, id := Republish(k, prev, qs, t);
      }
    }

    method DeletePath(k: RibKey, n: NhKey, t: RibType) returns (st: Status)
      requires Valid()
      modifies this, cells
      ensures Valid() && Step(old(S()), NhopDelete(k, n, t), st, S())
    {
      hide Core, DeleteStep, Unlinked, Release, CanRemove, Linked, RoutesOk, FibSafe;
      ghost var s0 := S();
      var wanted, i;
      wanted, st, i := CheckDelete(k, n, t);
      if !wanted {
        return;
      }
      DeleteFacts(s0, k, n, t, i);
      var p := nhops[n];
      ghost var id;
      st, id := Unlink(k, n, t, i);
      if st != Ok {
        DeleteFailed(s0, k, n, t, st);
        return;
      }
      UnlinkFacts(s0, k, i, id);
      NhopObjDelete(k.vrf, p);
      DeleteDone(s0, k, n, t, i, id);
    }

    /** Gives back the recorded references one by one. */
    method ReleasePaths(v: Vrf, ps: seq<Ptr>)
      requires Rep() && v in neighCnt && Distinct(ps) && Core(S(), Elems(ps))
      modifies this`nhops, this`heap, this`neighTbl, this`neighCount, this`neighCnt
      ensures S() == ReleaseAll(old(S()), v, ps)
    {
      hide Core, ReleaseAll, Release, Elems;
      ghost var s1 := S();
      var i := 0;
      while i < |ps|
        invariant 0 <= i <= |ps| && Rep() && v in neighCnt
        invariant Distinct(ps[i..]) && Core(S(), Elems(ps[i..]))
        invariant ReleaseAll(S(), v, ps[i..]) == ReleaseAll(s1, v, ps)
      {
        ReleaseNext(S(), v, ps, i);
        NhopObjDelete(v, ps[i]);
        i := i + 1;
      }
      ReleaseNone(S(), v, ps[i..]);
    }

    method DropRoute(k: RibKey) returns (st: Status)
      requires Valid()
      modifies this, cells
      ensures Valid() && Step(old(S()), RouteDelete(k), st, S())
    {
      hide Core, ReleaseAll, ToFib, Elems, FibSafe;
      if k !in rib {
        return PrefixNotFound;
      }
      ghost var s0 := S();
      WithdrawnCore(s0, k);
      var prev := rib[k];
      var ps := cells[prev].mpath;
      RtPrefixObjDelete(k);
      FibResObjDelete(prev);
      assert S() == Withdraw(s0, k);
      ReleasePaths(k.vrf, ps);
      WithdrawSafe(s0, S(), k);
      st := Ok;
    }

    method CleanupRoutes(v: Vrf) returns (st: Status)
      requires Valid()
      modifies this, cells
      ensures Valid() && Step(old(S()), RouteCleanup(v), st, S())
    {
      hide Core, Dropped, DropAll, Elems, Distinct, Nb, Res, Step, FibSafe;
      ghost var s0 := S();
      ghost var ks: seq<RibKey> := [];
      NoneDropped(s0);
      var todo := rib.Keys;
      while todo != {}
        invariant Valid() && todo <= S().rib.Keys && todo <= s0.rib.Keys
        invariant Distinct(ks) && Elems(ks) == KeysOf(s0.rib, v) - todo && Elems(ks) <= s0.rib.Keys
        invariant S() == DropAll(s0, ks)
        decreases |todo|
      {
        var k :| k in todo;
        todo := todo - {k};
        if k.vrf == v {
          ghost var s1 := S();
          OneMore(s0, v, ks, k);
          DropOneMore(s0, ks, k);
          var dropped := DropRoute(k);
          DropIs(s1, k, dropped, S());
          ks := ks + [k];
        }
      }
      st := Ok;
      CleanupDone(s0, v, ks);
    }

    /** Any operation: each is a step of the run. */
    method Execute(op: Op) returns (st: Status)
      requires Valid() && (op.NhopInsert? ==> op.k.vrf in ribCnt) && (op.VrfReset? ==> op.v in neighCnt)
      modifies this, cells
      ensures Valid() && Step(old(S()), op, st, S())
      ensures st != Ok ==> S() == old(S())
    {
      hide Core, FibSafe;
      match op
      case NhopInsert(k, n, t) => st := InsertPath(k, n, t);
      case NhopDelete(k, n, t) => st := DeletePath(k, n, t);
      case RouteDelete(k) => st := DropRoute(k);
      case RouteCleanup(v) => st := CleanupRoutes(v);
      case NeighAddStatic(v, g, mac) => st := NeighAddStaticEntry(v, g, mac);
      case VrfReset(v) =>
        ResetVrf(v);
        st := Ok;
    }

    /** The lookup half of `ntb_route_lookup`. */
    method LookupRoute(v: Vrf, addr: nat) returns (id: nat, r: FibRes)
      requires Valid()
      ensures id in used && r == cells[id]
      ensures r.flags.reject <==> id == BLACKHOLE
      ensures id != BLACKHOLE ==> r.mpath != [] && exists k :: k in rib && Covers(k, v, addr) && rib[k] == id
      ensures id != BLACKHOLE ==> forall hash: int :: SelectMpath(|r.mpath|, hash) < |r.mpath|
      ensures FibOk(S()) ==> (id == BLACKHOLE <==> forall j <- rib :: !Covers(j, v, addr))
      ensures FibOk(S()) && id != BLACKHOLE ==> exists k :: Longest(S(), k, v, addr) && rib[k] == id
    {
      LookupCorrect(S(), v, addr);
      hide Core, LookupFrom, Covers, FibOk, FibSafe, Longest;
      id := LookupFrom(fib, v, addr, 32);
      r := cells[id];
    }

    /** Make before break: builds the slot of the new path list, points the prefix at it, and frees the slot
        the prefix used before; a failure at either step frees the new slot again. */
    method Republish(k: RibKey, prev: int, ps: seq<Ptr>, t: RibType) returns (st: Status, ghost id: nat)
      requires Rep() && k.vrf in ribCnt && (forall p <- ps :: p in heap) && (t.RtMroute? || |ps| == 1)
      requires if k in rib then rib[k] == prev && prev in used else prev == -1
      modifies this`used, this`rib, this`fib, this`ribCnt, cells
      ensures Rep() && st in {Ok, ResultNoSpace, PrefixNoSpace}
      ensures st != Ok ==> S() == old(S())
      ensures st == Ok ==>
                && k.len <= 32 && NextFree(old(S()), id)
                && S() == Install(old(S()), k, id, RouteRes(heap, ps, FlagsAt(old(S()), k), t))
    {
      ghost var s0 := S();
      ghost var r := RouteRes(heap, ps, FlagsAt(s0, k), t);
      hide RouteRes;
      id := 0;
      var slot := FibResObjCreate(ps, prev, t);
      if slot < 0 {
        return ResultNoSpace, 0;
      }
      id := slot;
      assert S() == s0.(res := s0.res[id := r]);
      st := RtPrefixObjUpdate(k, prev, slot);
      if st != Ok {
        FibResObjDelete(slot);
        assert Res() == s0.res;
        return;
      }
      hide ToFib;
      if prev >= 0 {
        FibResObjDelete(prev);
      }
      assert Res() == Install(s0, k, id, r).res;
    }
  }

  /** Any sequence of operations on a new agent is a run, and its routes are those of the abstract run on the
      same operations and returned statuses. */
  method ExecuteAll(vrfs: set<Vrf>, ops: seq<Op>) returns (agent: Agent, sts: seq<Status>, ghost ss: seq<State>)
    requires forall op <- ops :: (op.NhopInsert? ==> op.k.vrf in vrfs) && (op.VrfReset? ==> op.v in vrfs)
    ensures IsRun(vrfs, ss, ops, sts) && agent.Valid() && agent.S() == ss[|ops|]
    ensures Abs(agent.S()) == ARun(ops, sts, |ops|)
  {
    hide Core, FibSafe, Step, Abs;
    agent := new Agent(vrfs);
    sts, ss := [], [agent.S()];
    for i := 0 to |ops|
      invariant fresh(agent) && fresh(agent.cells) && agent.Valid()
      invariant agent.ribCnt.Keys == agent.neighCnt.Keys == vrfs
      invariant |sts| == i && |ss| == i + 1 && ss[0] == Init(vrfs) && ss[i] == agent.S()
      invariant forall j | 0 <= j < i :: Core(ss[j], {}) ==> Step(ss[j], ops[j], sts[j], ss[j + 1])
    {
      var st := agent.Execute(ops[i]);
      StepVrfs(ss[i], ops[i], st, agent.S());
      sts, ss := sts + [st], ss + [agent.S()];
    }
    RunRefines(vrfs, ss, ops, sts, |ops|);
  }
}
