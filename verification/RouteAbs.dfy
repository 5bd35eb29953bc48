/** The abstract view of the route graph: an ordered list of next-hop keys for each prefix, with no slots,
    addresses, reference counts or neighbours; and the abstract effect of every concrete update. */
module RouteAbs {
  import opened Sequences
  import opened RouteState
  import opened RouteInv
  import opened RouteOps

  datatype Route = Route(rtype: RibType, nottl: bool, paths: seq<NhKey>)

  type Table = map<RibKey, Route>

  ghost function KeysAt(heap: map<Ptr, Nhop>, ps: seq<Ptr>): seq<NhKey>
    requires forall p <- ps :: p in heap
  {
    seq(|ps|, i requires 0 <= i < |ps| => heap[ps[i]].key)
  }

  ghost function RouteOf(r: FibRes, heap: map<Ptr, Nhop>): Route
    requires forall p <- r.mpath :: p in heap
  {
    Route(RtypeOf(r), r.flags.nottl, KeysAt(heap, r.mpath))
  }

  ghost function Abs(s: State): Table
    requires RoutesOk(s)
  {
    map k | k in s.rib :: assert ResOk(s.res[s.rib[k]], s.heap); RouteOf(s.res[s.rib[k]], s.heap)
  }

  // ---------------------------------------------------------------------------------------------
  // Abstract operations

  ghost predicate APresent(a: Table, k: RibKey, n: NhKey) {
    k in a && exists m <- a[k].paths :: NhopEqual(m, n)
  }

  function AInsert(a: Table, k: RibKey, n: NhKey, t: RibType): Table {
    if k in a then a[k := a[k].(paths := a[k].paths + [n])] else a[k := Route(t, false, [n])]
  }

  function IndexOf(ns: seq<NhKey>, n: NhKey): (i: nat)
    requires n in ns
    ensures i < |ns| && ns[i] == n
  {
    if ns[0] == n then 0 else 1 + IndexOf(ns[1..], n)
  }

  function ARemove(a: Table, k: RibKey, n: NhKey): Table {
    if k !in a || n !in a[k].paths then a
    else if |a[k].paths| == 1 then a - {k}
    else a[k := a[k].(paths := RemoveAt(a[k].paths, IndexOf(a[k].paths, n)))]
  }

  // ---------------------------------------------------------------------------------------------
  // Primitives

  /** The abstract table depends on the slots and on the keys of the next hops they point at. */
  lemma SameAbs(s: State, s': State)
    requires RoutesOk(s) && RoutesOk(s') && s'.rib == s.rib && s'.res == s.res
    requires forall p <- s.heap | p in s'.heap :: s'.heap[p].key == s.heap[p].key
    ensures Abs(s') == Abs(s)
  {
    hide ResOk, KeysAt;
    forall k <- s.rib ensures Abs(s')[k] == Abs(s)[k] {
      SameRoute(s, s', k);
    }
  }

  lemma SameRoute(s: State, s': State, k: RibKey)
    requires RoutesOk(s) && RoutesOk(s') && k in s.rib && s'.rib == s.rib && s'.res == s.res
    requires forall p <- s.heap | p in s'.heap :: s'.heap[p].key == s.heap[p].key
    ensures Abs(s')[k] == Abs(s)[k]
  {
    assert ResOk(s.res[s.rib[k]], s.heap) && ResOk(s'.res[s'.rib[k]], s'.heap);
    hide RoutesOk, PathsDistinct, KeysAt;
    SameKeys(s.heap, s'.heap, s.res[s.rib[k]].mpath);
  }

  lemma SameKeys(h: map<Ptr, Nhop>, h': map<Ptr, Nhop>, ps: seq<Ptr>)
    requires forall p <- ps :: p in h && p in h' && h'[p].key == h[p].key
    ensures KeysAt(h', ps) == KeysAt(h, ps)
  {
  }

  lemma AcquireAbs(s: State, v: Vrf, n: NhKey, p: Ptr, nhOid: nat, neighOid: nat)
    requires RoutesOk(s) && TableOk(s) && v in s.nb.cnt && Designates(s, n, p)
    ensures var s' := Acquire(s, v, n, p, nhOid, neighOid); RoutesOk(s') && Abs(s') == Abs(s)
  {
    hide NeighAcquire, RoutesOk;
    AcquireRoutes(s, v, n, p, nhOid, neighOid);
    SameAbs(s, Acquire(s, v, n, p, nhOid, neighOid));
  }

  lemma ReleaseAbs(s: State, v: Vrf, p: Ptr)
    requires RoutesOk(s) && v in s.nb.cnt && p in s.heap && RoutesOk(Release(s, v, p))
    ensures Abs(Release(s, v, p)) == Abs(s)
  {
    hide NeighRelease, RoutesOk;
    SameAbs(s, Release(s, v, p));
  }

  lemma InstallAbs(s: State, k: RibKey, id: nat, r: FibRes)
    requires SlotsOk(s) && RoutesOk(s) && k.vrf in s.ribCnt && id !in s.res && ResOk(r, s.heap)
    ensures var s' := Install(s, k, id, r); RoutesOk(s') && Abs(s') == Abs(s)[k := RouteOf(r, s.heap)]
  {
    hide SlotsOk, ToFib;
    InstallRoutes(s, k, id, r);
    InstallSlots(s, k, id, r);
  }

  lemma WithdrawAbs(s: State, k: RibKey)
    requires SlotsOk(s) && RoutesOk(s) && k in s.rib && k.vrf in s.ribCnt
    ensures var s' := Withdraw(s, k); RoutesOk(s') && Abs(s') == Abs(s) - {k}
  {
    hide SlotsOk, ToFib;
    WithdrawSlots(s, k);
  }

  // ---------------------------------------------------------------------------------------------
  // Operations

  lemma InsertedAbs(s: State, k: RibKey, n: NhKey, t: RibType, p: Ptr, id: nat, nhOid: nat, neighOid: nat)
    requires Core(s, {}) && CanInsert(s, k, n, t, p, id)
    ensures var s' := Inserted(s, k, n, t, p, id, nhOid, neighOid);
            RoutesOk(s') && Abs(s') == AInsert(Abs(s), k, n, t)
  {
    var s1 := Acquire(s, k.vrf, n, p, nhOid, neighOid);
    var r := Extended(s, k, n, t, p, nhOid, neighOid);
    AcquireCore(s, k.vrf, n, p, nhOid, neighOid);
    AcquireAbs(s, k.vrf, n, p, nhOid, neighOid);
    ExtendedOk(s, k, n, t, p, nhOid, neighOid);
    assert SlotsOk(s1) by { hide RoutesOk, TableOk, RefsOk, CountsOk, NeighBase, Acquire; }
    InstallAbs(s1, k, id, r);
    ExtendedRoute(s, k, n, t, p, nhOid, neighOid);
  }

  lemma ExtendedRoute(s: State, k: RibKey, n: NhKey, t: RibType, p: Ptr, nhOid: nat, neighOid: nat)
    requires Core(s, {}) && k.vrf in s.nb.cnt && Designates(s, n, p) && Accepts(s, k, n, t)
    requires ResOk(Extended(s, k, n, t, p, nhOid, neighOid), Acquire(s, k.vrf, n, p, nhOid, neighOid).heap)
    ensures RouteOf(Extended(s, k, n, t, p, nhOid, neighOid), Acquire(s, k.vrf, n, p, nhOid, neighOid).heap)
         == AInsert(Abs(s), k, n, t)[k]
  {
    hide SlotsOk, RefsOk, CountsOk, NeighBase, NeighAcquire, PathsDistinct;
    var s1 := Acquire(s, k.vrf, n, p, nhOid, neighOid);
    var r := Extended(s, k, n, t, p, nhOid, neighOid);
    assert s1.heap[p].key == n by { AcquireTable(s, k.vrf, n, p, nhOid, neighOid); }
    if k in s.rib {
      assert ResOk(s.res[s.rib[k]], s.heap);
      assert KeysAt(s1.heap, r.mpath) == KeysAt(s.heap, Paths(s, k)) + [n];
    } else {
      assert KeysAt(s1.heap, r.mpath) == [n];
    }
  }

  /** The next hop of a key occurs in a path list exactly where the key occurs in the abstract list. */
  lemma PathIndex(s: State, k: RibKey, i: nat)
    requires TableOk(s) && RoutesOk(s) && k in s.rib && i < |Paths(s, k)|
    ensures var n := Abs(s)[k].paths[i]; n in Abs(s)[k].paths && IndexOf(Abs(s)[k].paths, n) == i
  {
    assert ResOk(s.res[s.rib[k]], s.heap);
    var ns := Abs(s)[k].paths;
    var j := IndexOf(ns, ns[i]);
    PathsUnique(s.heap, Paths(s, k));
    assert s.heap[Paths(s, k)[i]].key == s.heap[Paths(s, k)[j]].key;
  }

  lemma ReducedRoute(s: State, k: RibKey, i: nat)
    requires RoutesOk(s) && k in s.rib && i < |Paths(s, k)| && |Paths(s, k)| > 1
    ensures ResOk(Reduced(s, k, i), s.heap)
    ensures RouteOf(Reduced(s, k, i), s.heap) == Abs(s)[k].(paths := RemoveAt(Abs(s)[k].paths, i))
  {
    ReducedOk(s, k, i);
    assert ResOk(s.res[s.rib[k]], s.heap);
    var ps := Paths(s, k);
    assert KeysAt(s.heap, RemoveAt(ps, i)) == RemoveAt(KeysAt(s.heap, ps), i);
  }

  lemma UnlinkedAbs(s: State, k: RibKey, i: nat, id: nat)
    requires Core(s, {}) && CanRemove(s, k, i, id)
    ensures var s' := Unlinked(s, k, i, id); RoutesOk(s') && Abs(s') == ARemove(Abs(s), k, Abs(s)[k].paths[i])
  {
    hide SlotsOk, RefsOk, NeighBase, ResOk;
    PathIndex(s, k, i);
    if |Paths(s, k)| == 1 {
      WithdrawAbs(s, k);
    } else {
      ReducedRoute(s, k, i);
      InstallAbs(s, k, id, Reduced(s, k, i));
    }
  }

  lemma RemovedAbs(s: State, k: RibKey, i: nat, id: nat)
    requires Core(s, {}) && CanRemove(s, k, i, id)
    ensures var s' := Removed(s, k, i, id); RoutesOk(s') && Abs(s') == ARemove(Abs(s), k, Abs(s)[k].paths[i])
  {
    hide SlotsOk, TableOk, RefsOk, CountsOk, NeighBase, ResOk, Unlinked, Abs, ARemove;
    UnlinkedCore(s, k, i, id);
    RemovedCore(s, k, i, id);
    UnlinkedAbs(s, k, i, id);
    ReleaseAbs(Unlinked(s, k, i, id), k.vrf, Paths(s, k)[i]);
  }

  lemma {:induction false} ReleaseAllAbs(s: State, v: Vrf, ps: seq<Ptr>)
    requires Core(s, Elems(ps)) && Distinct(ps) && v in s.nb.cnt
    ensures RoutesOk(ReleaseAll(s, v, ps)) && Abs(ReleaseAll(s, v, ps)) == Abs(s)
    decreases |ps|
  {
    hide SlotsOk, RoutesOk, TableOk, RefsOk, CountsOk, NeighBase, Release, Abs;
    if ps != [] {
      ReleaseHead(s, v, ps);
      ReleaseAbs(s, v, ps[0]);
      ReleaseAllAbs(Release(s, v, ps[0]), v, ps[1..]);
    }
  }

  lemma DroppedAbs(s: State, k: RibKey)
    requires Core(s, {}) && k in s.rib
    ensures RoutesOk(Dropped(s, k)) && Abs(Dropped(s, k)) == Abs(s) - {k}
  {
    hide SlotsOk, RefsOk, NeighBase, ReleaseAll, ResOk, TableOk, KeysAt, Abs;
    WithdrawnCore(s, k);
    WithdrawAbs(s, k);
    ReleaseAllAbs(Withdraw(s, k), k.vrf, Paths(s, k));
  }

  lemma {:induction false} DropAllAbs(s: State, ks: seq<RibKey>)
    requires Core(s, {}) && Distinct(ks) && Elems(ks) <= s.rib.Keys
    ensures RoutesOk(DropAll(s, ks)) && Abs(DropAll(s, ks)) == Abs(s) - Elems(ks)
    decreases |ks|
  {
    hide SlotsOk, RoutesOk, TableOk, RefsOk, CountsOk, NeighBase, Dropped, Abs;
    if ks != [] {
      var init := ks[..|ks| - 1];
      InitElems(ks);
      DropAllAbs(s, init);
      DroppedAbs(DropAll(s, init), ks[|ks| - 1]);
    }
  }
}
