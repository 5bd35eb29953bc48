/** What the invariants say in the terms of the agent's counters, its cleanup and its route attributes. */
module RouteFacts {
  import opened Sequences
  import opened RouteState
  import opened RouteInv
  import opened RouteOps
  import opened RouteAbs
  import opened RouteFib
  import opened RouteNeigh
  import opened RouteReset
  import opened RouteRuns

  // ---------------------------------------------------------------------------------------------
  // Conservation of references and slots

  /** The path slots, over all prefixes of all VRFs, that point at `p`. */
  ghost function PathSlots(s: State, p: Ptr): set<(RibKey, int)>
    requires InRange(s)
  {
    set k, i | k in s.rib && 0 <= i < |Paths(s, k)| && Paths(s, k)[i] == p :: (k, i)
  }

  lemma {:induction false} FirstCard(xs: set<(RibKey, int)>)
    requires forall x <- xs, y <- xs :: x.0 == y.0 ==> x == y
    ensures |set x | x in xs :: x.0| == |xs|
  {
    if xs == {} {
      assert (set x | x in xs :: x.0) == {};
    } else {
      var a :| a in xs;
      FirstCard(xs - {a});
      assert (set x | x in xs :: x.0) == (set x | x in xs - {a} :: x.0) + {a.0};
    }
  }

  /** A live next hop's reference count is the number of path slots that point at it, and it is positive;
      a next hop that is not live is pointed at by none. */
  lemma RefCountIsPathSlots(s: State, p: Ptr)
    requires Core(s, {})
    ensures p in s.heap <==> PathSlots(s, p) != {}
    ensures p in s.heap ==> s.heap[p].refCount == |PathSlots(s, p)|
  {
    hide SlotsOk, TableOk, CountsOk, NeighBase;
    var xs := PathSlots(s, p);
    forall x <- xs, y <- xs | x.0 == y.0 ensures x == y {
      RoutePaths(s, x.0);
    }
    FirstCard(xs);
    assert Users(s, p) == set x | x in xs :: x.0 by {
      forall k <- Users(s, p) ensures k in set x | x in xs :: x.0 {
        var i :| 0 <= i < |Paths(s, k)| && Paths(s, k)[i] == p;
        assert (k, i) in xs;
      }
    }
    assert forall x <- xs :: x.0 in Users(s, p);
    if p !in s.heap {
      NoUsers(s, p);
    }
  }

  function SumCnt(cnt: map<Vrf, int>, vs: seq<Vrf>): int
    requires forall v <- vs :: v in cnt
  {
    if vs == [] then 0 else cnt[vs[0]] + SumCnt(cnt, vs[1..])
  }

  lemma {:induction false} SumKeys(s: State, vs: seq<Vrf>)
    requires CountsOk(s) && Distinct(vs) && forall v <- vs :: v in s.ribCnt
    ensures SumCnt(s.ribCnt, vs) == |set k | k in s.rib && k.vrf in vs|
  {
    if vs == [] {
      assert (set k | k in s.rib && k.vrf in vs) == {};
    } else {
      SumKeys(s, vs[1..]);
      var rest := set k | k in s.rib && k.vrf in vs[1..];
      assert (set k | k in s.rib && k.vrf in vs) == KeysOf(s.rib, vs[0]) + rest;
      assert KeysOf(s.rib, vs[0]) !! rest;
    }
  }

  /** The used slots number one, for the blackhole, plus the sum of all `rib_cnt`. */
  lemma UsedSlots(s: State, vs: seq<Vrf>)
    requires Core(s, {}) && Distinct(vs) && Elems(vs) == s.ribCnt.Keys
    ensures |s.res| == 1 + SumCnt(s.ribCnt, vs)
  {
    hide RoutesOk, TableOk, RefsOk, NeighBase;
    assert forall v <- vs :: v in Elems(vs);
    SumKeys(s, vs);
    SlotCount(s);
    assert s.rib.Keys == set k | k in s.rib && k.vrf in vs by {
      assert forall k <- s.rib :: k.vrf in Elems(vs);
    }
  }

  // ---------------------------------------------------------------------------------------------
  // Cleanup of a VRF

  /** `s'` keeps all slots of the prefixes it keeps, and of the next hops it keeps all but the counts. */
  ghost predicate Thinned(s: State, s': State) {
    && InRange(s) && InRange(s') && s'.rib.Keys <= s.rib.Keys
    && (forall k <- s'.rib :: s'.rib[k] == s.rib[k] && s'.res[s'.rib[k]] == s.res[s.rib[k]])
    && (forall p <- s'.heap :: p in s.heap && s'.heap[p] == s.heap[p].(refCount := s'.heap[p].refCount))
  }

  lemma {:induction false} ReleaseAllHeap(s: State, v: Vrf, ps: seq<Ptr>)
    requires Core(s, Elems(ps)) && Distinct(ps) && v in s.nb.cnt
    ensures var s' := ReleaseAll(s, v, ps);
            forall p <- s'.heap :: p in s.heap && s'.heap[p] == s.heap[p].(refCount := s'.heap[p].refCount)
    decreases |ps|
  {
    hide SlotsOk, RoutesOk, TableOk, RefsOk, CountsOk, NeighBase, NeighRelease;
    if ps != [] {
      ReleaseHead(s, v, ps);
      ReleaseAllHeap(Release(s, v, ps[0]), v, ps[1..]);
    }
  }

  lemma DroppedThins(s: State, k: RibKey)
    requires Core(s, {}) && k in s.rib
    ensures Thinned(s, Dropped(s, k))
  {
    hide RoutesOk, TableOk, RefsOk, NeighBase, ReleaseAll;
    WithdrawnCore(s, k);
    ReleaseAllHeap(Withdraw(s, k), k.vrf, Paths(s, k));
  }

  lemma {:induction false} DropAllThins(s: State, ks: seq<RibKey>)
    requires Core(s, {}) && Distinct(ks) && Elems(ks) <= s.rib.Keys
    ensures Thinned(s, DropAll(s, ks))
    decreases |ks|
  {
    hide SlotsOk, RoutesOk, TableOk, RefsOk, CountsOk, NeighBase, Dropped;
    if ks == [] {
      InRangeOf(s, {});
    } else {
      InitElems(ks);
      var s1 := DropAll(s, ks[..|ks| - 1]);
      DropAllThins(s, ks[..|ks| - 1]);
      DroppedThins(s1, ks[|ks| - 1]);
    }
  }

  /** Cleanup removes the prefixes and the FIB entries of its VRF and no other, leaves the slots of the others
      as they were, drives the VRF's counter to zero and keeps exactly the next hops that another VRF uses. */
  lemma CleanupEffect(s: State, v: Vrf, s': State)
    requires Core(s, {}) && FibSafe(s) && v in s.ribCnt && Step(s, RouteCleanup(v), Ok, s')
    ensures Core(s', {}) && s'.rib == s.rib - KeysOf(s.rib, v)
    ensures s'.fib == map f | f in s.fib && f.vrf != v :: s.fib[f]
    ensures forall k <- s'.rib :: s'.res[s'.rib[k]] == s.res[s.rib[k]]
    ensures v in s'.ribCnt && s'.ribCnt[v] == 0
    ensures forall p: Ptr :: p in s'.heap <==> p in s.heap && exists k <- s.rib :: k.vrf != v && p in Paths(s, k)
    ensures forall p <- s'.heap :: s'.heap[p] == s.heap[p].(refCount := s'.heap[p].refCount)
  {
    hide SlotsOk, TableOk, RefsOk, NeighBase, DropAll, ResOk, FibSafe, FibKeys;
    var ks: seq<RibKey> :| Lists(ks, s, v) && s' == DropAll(s, ks);
    DropAllThins(s, ks);
    DropAllCnt(s, ks);
    DropAllEntries(s, ks);
    VrfEntries(s, v, ks);
    assert KeysOf(s'.rib, v) == {};
    forall p: Ptr ensures p in s'.heap <==> p in s.heap && exists k <- s.rib :: k.vrf != v && p in Paths(s, k) {
      Survivor(s, v, s', p);
    }
  }

  lemma VrfEntries(s: State, v: Vrf, ks: seq<RibKey>)
    requires FibSafe(s) && Lists(ks, s, v)
    ensures s.fib - FibKeys(ks) == map f | f in s.fib && f.vrf != v :: s.fib[f]
  {
    hide Mask32;
    forall f <- s.fib ensures f in FibKeys(ks) <==> f.vrf == v {
      var k :| k in s.rib && ToFib(k) == f && s.rib[k] == s.fib[f];
      if f.vrf == v {
        assert k in Elems(ks);
      }
      if f in FibKeys(ks) {
        var j :| j in ks && ToFib(j) == f;
        assert j in Elems(ks);
      }
    }
  }

  lemma Survivor(s: State, v: Vrf, s': State, p: Ptr)
    requires RoutesOk(s') && RefsOk(s', {}) && Thinned(s, s') && s'.rib == s.rib - KeysOf(s.rib, v)
    ensures p in s'.heap <==> p in s.heap && exists k <- s.rib :: k.vrf != v && p in Paths(s, k)
  {
    if p in s'.heap {
      assert Users(s', p) != {};
      var k :| k in Users(s', p);
      assert k in s.rib && k.vrf != v && p in Paths(s, k);
    }
    if k :| k in s.rib && k.vrf != v && p in Paths(s, k) {
      assert k in s'.rib && ResOk(s'.res[s'.rib[k]], s'.heap);
    }
  }

  lemma InsertedVrfs(s: State, k: RibKey, n: NhKey, t: RibType, p: Ptr, id: nat, nhOid: nat, neighOid: nat)
    requires Core(s, {}) && CanInsert(s, k, n, t, p, id)
    ensures Inserted(s, k, n, t, p, id, nhOid, neighOid).ribCnt.Keys == s.ribCnt.Keys
  {
    hide SlotsOk, TableOk, RefsOk, CountsOk, NeighBase, ResOk, ToFib, Acquire, Extended;
  }

  lemma RemovedVrfs(s: State, k: RibKey, i: nat, id: nat)
    requires Core(s, {}) && CanRemove(s, k, i, id)
    ensures Removed(s, k, i, id).ribCnt.Keys == s.ribCnt.Keys
  {
    hide SlotsOk, TableOk, RefsOk, NeighBase, ResOk, ToFib, Release, Reduced;
    UnlinkedCore(s, k, i, id);
  }

  lemma DroppedVrfs(s: State, k: RibKey)
    requires Core(s, {}) && k in s.rib
    ensures Dropped(s, k).ribCnt.Keys == s.ribCnt.Keys
  {
    hide SlotsOk, RoutesOk, TableOk, RefsOk, NeighBase, ReleaseAll;
    WithdrawnCore(s, k);
  }

  /** No operation adds or removes a VRF. */
  lemma StepVrfs(s: State, op: Op, st: Status, s': State)
    requires Core(s, {}) && Step(s, op, st, s')
    ensures s'.ribCnt.Keys == s.ribCnt.Keys && s'.nb.cnt.Keys == s.nb.cnt.Keys
  {
    hide SlotsOk, TableOk, RefsOk, NeighBase, ResOk, DropAll, Dropped, Present, Linked, Inserted, Removed, CanInsert,
         CanRemove, Abs, ALegal, ANext;
    StepRefines(s, op, st, s');
    match op
    case NhopInsert(k, n, t) =>
      if s' != s {
        var p: Ptr, id: nat, nhOid: nat, neighOid: nat :|
          CanInsert(s, k, n, t, p, id) && s' == Inserted(s, k, n, t, p, id, nhOid, neighOid);
        InsertedVrfs(s, k, n, t, p, id, nhOid, neighOid);
      }
    case NhopDelete(k, n, t) =>
      if s' != s {
        var i: nat, id: nat :| CanRemove(s, k, i, id) && RemovesKey(s, k, i, n) && s' == Removed(s, k, i, id);
        RemovedVrfs(s, k, i, id);
      }
    case RouteDelete(k) =>
      if k in s.rib {
        DroppedVrfs(s, k);
      }
    case RouteCleanup(v) =>
      var ks: seq<RibKey> :| Lists(ks, s, v) && s' == DropAll(s, ks);
      DropAllCnt(s, ks);
    case NeighAddStatic(_, _, _) =>
    case VrfReset(_) =>
  }

  // ---------------------------------------------------------------------------------------------
  // Inserts and deletes in terms of next-hop keys

  /** A VXLAN next hop is equal to itself alone, a TGRE next hop to those of its tunnel over any gateway. */
  lemma NhopEqualMeans(m: NhKey, n: NhKey)
    ensures m.tunnel.Vxlan? ==> (NhopEqual(m, n) <==> m == n)
    ensures m.tunnel.Tgre? ==> (NhopEqual(m, n) <==> exists g: nat :: n == NhKey(g, m.tunnel))
  {
    assert n == NhKey(n.gateway, n.tunnel);
  }

  /** The list has the VXLAN next hop itself, or the tunnel of the TGRE one. */
  ghost predicate Listed(ns: seq<NhKey>, n: NhKey) {
    if n.tunnel.Vxlan? then n in ns else exists m <- ns :: m.tunnel == n.tunnel
  }

  lemma ListedMeans(ns: seq<NhKey>, n: NhKey)
    ensures Listed(ns, n) <==> exists m <- ns :: NhopEqual(m, n)
  {
    forall m <- ns ensures NhopEqual(m, n) <==> m.tunnel == n.tunnel && (n.tunnel.Vxlan? ==> m == n) {
      NhopEqualMeans(m, n);
    }
    if n.tunnel.Vxlan? && n in ns {
      NhopEqualMeans(n, n);
    }
  }

  ghost function PathsOf(a: Table, k: RibKey): seq<NhKey> {
    if k in a then a[k].paths else []
  }

  /** An insert fails on a prefix of the other type and on a full list, one path for a unicast route and eight for
      a multicast route; otherwise it leaves a list that has the next hop, or appends it to a list that does not,
      unless resources are short. No other prefix changes. */
  lemma InsertEffect(s: State, k: RibKey, n: NhKey, t: RibType, st: Status, s': State)
    requires Core(s, {}) && Step(s, NhopInsert(k, n, t), st, s')
    ensures Core(s', {})
    ensures var a := Abs(s);
            && (st == TypeNotSame <==> k in a && a[k].rtype != t)
            && (st == EcmpNoSpace <==> k in a && a[k].rtype == t && |a[k].paths| >= if t.RtMroute? then 8 else 1)
            && (k in a && a[k].rtype == t && |a[k].paths| < (if t.RtMroute? then 8 else 1) && Listed(a[k].paths, n) ==>
                  st == Ok)
            && (st != Ok ==> s' == s)
            && (st == Ok ==>
                  && k in Abs(s') && Abs(s')[k].rtype == t && Abs(s') == a[k := Abs(s')[k]]
                  && Abs(s')[k].paths == PathsOf(a, k) + if Listed(PathsOf(a, k), n) then [] else [n])
  {
    hide SlotsOk, RoutesOk, TableOk, RefsOk, CountsOk, NeighBase, Abs, Listed;
    StepRefines(s, NhopInsert(k, n, t), st, s');
    ListedMeans(PathsOf(Abs(s), k), n);
    if st == Ok {
      assert PathsOf(Abs(s), k) + [] == PathsOf(Abs(s), k);
      assert APresent(Abs(s), k, n) ==> Abs(s)[k := Abs(s)[k]] == Abs(s);
    } else {
      hide Inserted;
    }
  }

  /** A delete fails on a prefix of the other type; otherwise it takes the keyed next hop out of its place in the
      list, and the prefix with its last one, and changes nothing if the next hop is not there. */
  lemma DeleteEffect(s: State, k: RibKey, n: NhKey, t: RibType, st: Status, s': State)
    requires Core(s, {}) && Step(s, NhopDelete(k, n, t), st, s')
    ensures Core(s', {})
    ensures var a := Abs(s);
            && (st == TypeNotSame <==> k in a && a[k].rtype != t)
            && (st != Ok || n !in PathsOf(a, k) ==> s' == s)
            && (st == Ok && n in PathsOf(a, k) ==>
                  exists xs, ys ::
                    && a[k].paths == xs + [n] + ys && n !in xs + ys
                    && Abs(s') == if xs + ys == [] then a - {k} else a[k := a[k].(paths := xs + ys)])
  {
    hide SlotsOk, RoutesOk, TableOk, RefsOk, CountsOk, NeighBase, Abs, Removed, CanRemove, Linked;
    StepRefines(s, NhopDelete(k, n, t), st, s');
    LinkedAbs(s, k, n);
    if st == Ok && n in PathsOf(Abs(s), k) {
      var ns := Abs(s)[k].paths;
      var i := IndexOf(ns, n);
      var xs, ys := ns[..i], ns[i + 1..];
      assert ns == xs + [n] + ys;
      assert Distinct(ns) by { KeysDistinct(s, k); }
      assert n !in xs + ys;
    }
  }

  lemma KeysDistinct(s: State, k: RibKey)
    requires RoutesOk(s) && k in s.rib
    ensures k in Abs(s) && Distinct(Abs(s)[k].paths)
  {
    assert ResOk(s.res[s.rib[k]], s.heap);
  }

  // ---------------------------------------------------------------------------------------------
  // Route attributes

  lemma ANextAttributes(a: Table, op: Op, st: Status, k: RibKey)
    requires k in a && k in ANext(a, op, st)
    ensures ANext(a, op, st)[k].rtype == a[k].rtype && ANext(a, op, st)[k].nottl == a[k].nottl
  {
  }

  lemma FlagsOfRoute(s: State, k: RibKey)
    requires RoutesOk(s) && k in s.rib
    ensures k in Abs(s)
    ensures var r, a := s.res[s.rib[k]], Abs(s)[k];
            r.flags == Flags(false, a.rtype.RtMroute?, a.nottl) && r.mpathMax == MaxPaths(a.rtype)
  {
    assert ResOk(s.res[s.rib[k]], s.heap);
  }

  lemma StepFlags(s: State, op: Op, st: Status, s': State, k: RibKey)
    requires Core(s, {}) && Step(s, op, st, s') && k in s.rib && k in s'.rib
    ensures Core(s', {})
    ensures var r, r' := s.res[s.rib[k]], s'.res[s'.rib[k]]; r'.flags == r.flags && r'.mpathMax == r.mpathMax
  {
    hide SlotsOk, TableOk, RefsOk, CountsOk, NeighBase, ResOk, Step, Abs, ANext, ALegal;
    StepRefines(s, op, st, s');
    FlagsOfRoute(s, k);
    FlagsOfRoute(s', k);
    ANextAttributes(Abs(s), op, st, k);
  }

  /** In every run a prefix keeps its flags, and with them its type and its limit, from its first insert to its
      removal, whatever slots it moves through. */
  lemma {:induction false} TypeFixed(
    vrfs: set<Vrf>, ss: seq<State>, ops: seq<Op>, sts: seq<Status>, k: RibKey, i: nat, j: nat)
    requires IsRun(vrfs, ss, ops, sts) && i <= j <= |ops| && forall m | i <= m <= j :: k in ss[m].rib
    ensures Core(ss[i], {}) && Core(ss[j], {})
    ensures var r, r' := ss[i].res[ss[i].rib[k]], ss[j].res[ss[j].rib[k]];
            r'.flags == r.flags && r'.mpathMax == r.mpathMax
    decreases j
  {
    hide SlotsOk, TableOk, RefsOk, CountsOk, NeighBase, RoutesOk, Step, Abs, ALegal, ARun;
    RunRefines(vrfs, ss, ops, sts, i);
    RunRefines(vrfs, ss, ops, sts, j);
    assert InRange(ss[i]) && InRange(ss[j]) by { InRangeOf(ss[i], {}); InRangeOf(ss[j], {}); }
    if i < j {
      TypeFixed(vrfs, ss, ops, sts, k, i, j - 1);
      assert k in ss[j - 1].rib;
      StepFlags(ss[j - 1], ops[j - 1], sts[j - 1], ss[j], k);
    }
  }

  /** Path lists are never empty, never over the limit of their type, and hold no two equal next hops; the
      slot's flags, limit and object id follow the type. */
  lemma RouteAttributes(s: State, k: RibKey)
    requires Core(s, {}) && k in s.rib
    ensures var r, a := s.res[s.rib[k]], Abs(s)[k];
            && 1 <= |a.paths| <= r.mpathMax == (if a.rtype.RtMroute? then 8 else 1)
            && (forall i, j | 0 <= i < j < |a.paths| :: !Listed([a.paths[i]], a.paths[j]))
            && (r.flags.mroute <==> a.rtype.RtMroute?) && !r.flags.reject
            && (a.rtype.RtMroute? ==> r.oid == |a.paths|)
            && (a.rtype.RtDefault? ==> a.paths[0] in s.nhops && r.oid == s.heap[s.nhops[a.paths[0]]].nhOid)
  {
    hide SlotsOk, RefsOk, CountsOk, NeighBase;
    assert ResOk(s.res[s.rib[k]], s.heap);
    KeyAt(s, k, 0);
  }
}
