/** The effect of each successful route operation as one atomic update, and the structural invariant
    over those updates. */
module RouteOps {
  import opened Sequences
  import opened RouteState
  import opened RouteInv

  // ---------------------------------------------------------------------------------------------
  // Insert of a path

  function FlagsAt(s: State, k: RibKey): Flags {
    if k in s.rib && s.rib[k] in s.res then s.res[s.rib[k]].flags else NO_FLAGS
  }

  /** `id` is the slot the array hands out: the lowest free one. */
  ghost predicate NextFree(s: State, id: nat) {
    id !in s.res && forall j: nat | j < id :: j in s.res
  }

  /** The checks that `ntb_route_nhop_insert` makes on an existing prefix all pass. */
  ghost predicate Accepts(s: State, k: RibKey, n: NhKey, t: RibType)
    requires RoutesOk(s)
  {
    k in s.rib ==>
      var r := s.res[s.rib[k]];
      RtypeOf(r) == t && |r.mpath| < r.mpathMax && !Present(s, k, n)
  }

  ghost predicate Present(s: State, k: RibKey, n: NhKey)
    requires RoutesOk(s)
  {
    k in s.rib && exists p <- Paths(s, k) :: NhopEqual(s.heap[p].key, n)
  }

  ghost predicate CanInsert(s: State, k: RibKey, n: NhKey, t: RibType, p: Ptr, id: nat) {
    && RoutesOk(s) && k.vrf in s.ribCnt && k.vrf in s.nb.cnt && k.len <= 32
    && Accepts(s, k, n, t) && Designates(s, n, p) && NextFree(s, id)
  }

  ghost function Extended(s: State, k: RibKey, n: NhKey, t: RibType, p: Ptr, nhOid: nat, neighOid: nat): FibRes
    requires Core(s, {}) && k.vrf in s.nb.cnt && Designates(s, n, p) && Accepts(s, k, n, t)
  {
    RouteRes(Acquire(s, k.vrf, n, p, nhOid, neighOid).heap, OldPaths(s, k) + [p], FlagsAt(s, k), t)
  }

  ghost function Inserted(s: State, k: RibKey, n: NhKey, t: RibType, p: Ptr, id: nat, nhOid: nat, neighOid: nat): State
    requires Core(s, {}) && CanInsert(s, k, n, t, p, id)
  {
    Install(Acquire(s, k.vrf, n, p, nhOid, neighOid), k, id, Extended(s, k, n, t, p, nhOid, neighOid))
  }

  lemma FreshPath(s: State, k: RibKey, n: NhKey, t: RibType, p: Ptr)
    requires RoutesOk(s) && TableOk(s) && Designates(s, n, p) && Accepts(s, k, n, t)
    ensures p !in OldPaths(s, k)
  {
    if k in s.rib && p in Paths(s, k) {
      assert ResOk(s.res[s.rib[k]], s.heap);
      assert NhopEqual(s.heap[p].key, n);
    }
  }

  lemma ExtendedDistinct(heap: map<Ptr, Nhop>, ps: seq<Ptr>, p: Ptr)
    requires p in heap && (forall q <- ps :: q in heap && !NhopEqual(heap[q].key, heap[p].key))
    requires PathsDistinct(heap, ps)
    ensures PathsDistinct(heap, ps + [p])
  {
  }

  lemma ExtendedOk(s: State, k: RibKey, n: NhKey, t: RibType, p: Ptr, nhOid: nat, neighOid: nat)
    requires Core(s, {}) && k.vrf in s.nb.cnt && Designates(s, n, p) && Accepts(s, k, n, t)
    ensures ResOk(Extended(s, k, n, t, p, nhOid, neighOid), Acquire(s, k.vrf, n, p, nhOid, neighOid).heap)
  {
    AcquireRoutes(s, k.vrf, n, p, nhOid, neighOid);
    AcquireTable(s, k.vrf, n, p, nhOid, neighOid);
    var s1 := Acquire(s, k.vrf, n, p, nhOid, neighOid);
    var r := Extended(s, k, n, t, p, nhOid, neighOid);
    assert p in s1.heap && s1.heap[p].key == n;
    if k in s.rib {
      assert ResOk(s.res[s.rib[k]], s.heap);
      assert ResOk(s1.res[s1.rib[k]], s1.heap);
      assert forall q <- Paths(s, k) :: s1.heap[q].key == s.heap[q].key;
      ExtendedDistinct(s1.heap, Paths(s, k), p);
    } else {
      assert r.mpath == [p];
    }
  }

  lemma InsertedCore(s: State, k: RibKey, n: NhKey, t: RibType, p: Ptr, id: nat, nhOid: nat, neighOid: nat)
    requires Core(s, {}) && CanInsert(s, k, n, t, p, id)
    ensures Core(Inserted(s, k, n, t, p, id, nhOid, neighOid), {})
  {
    AcquireCore(s, k.vrf, n, p, nhOid, neighOid);
    ExtendedOk(s, k, n, t, p, nhOid, neighOid);
    FreshPath(s, k, n, t, p);
    InstallCore(Acquire(s, k.vrf, n, p, nhOid, neighOid), {p}, k, id, Extended(s, k, n, t, p, nhOid, neighOid), {});
  }

  /** Giving the reference back right after taking it restores the state: the rollback of a failed insert. */
  lemma AcquireRelease(s: State, v: Vrf, n: NhKey, p: Ptr, nhOid: nat, neighOid: nat)
    requires TableOk(s) && NeighBase(s.nb) && v in s.nb.cnt && Designates(s, n, p)
    requires n in s.nhops ==> s.heap[p].refCount > 0
    ensures p in Acquire(s, v, n, p, nhOid, neighOid).heap
    ensures Release(Acquire(s, v, n, p, nhOid, neighOid), v, p) == s
  {
    hide NeighAcquire, NeighRelease, NeighBase;
    var s1 := Acquire(s, v, n, p, nhOid, neighOid);
    var s2 := Release(s1, v, p);
    if n in s.nhops {
      assert s2.heap == s.heap;
    } else {
      NeighRoundTrip(s.nb, v, n.gateway, neighOid);
      assert s1.heap == s.heap[p := s1.heap[p]];
      assert s2.heap == s.heap && s2.nhops == s.nhops;
    }
  }

  // ---------------------------------------------------------------------------------------------
  // Removal of a path

  ghost predicate CanRemove(s: State, k: RibKey, i: nat, id: nat) {
    && RoutesOk(s) && k in s.rib && i < |Paths(s, k)|
    && (|Paths(s, k)| > 1 ==> NextFree(s, id))
  }

  ghost function Reduced(s: State, k: RibKey, i: nat): FibRes
    requires RoutesOk(s) && k in s.rib && i < |Paths(s, k)| && |Paths(s, k)| > 1
  {
    assert ResOk(s.res[s.rib[k]], s.heap);
    RouteRes(s.heap, RemoveAt(Paths(s, k), i), FlagsAt(s, k), RtMroute)
  }

  /** The prefix without its `i`-th path; the prefix goes with its last path. */
  ghost function Unlinked(s: State, k: RibKey, i: nat, id: nat): State
    requires Core(s, {}) && CanRemove(s, k, i, id)
  {
    if |Paths(s, k)| == 1 then Withdraw(s, k) else Install(s, k, id, Reduced(s, k, i))
  }

  ghost function Removed(s: State, k: RibKey, i: nat, id: nat): State
    requires Core(s, {}) && CanRemove(s, k, i, id)
  {
    UnlinkedCore(s, k, i, id);
    Release(Unlinked(s, k, i, id), k.vrf, Paths(s, k)[i])
  }

  lemma PathsUnique(heap: map<Ptr, Nhop>, ps: seq<Ptr>)
    requires (forall p <- ps :: p in heap) && PathsDistinct(heap, ps)
    ensures Distinct(ps)
  {
  }

  lemma ReducedOk(s: State, k: RibKey, i: nat)
    requires RoutesOk(s) && k in s.rib && i < |Paths(s, k)| && |Paths(s, k)| > 1
    ensures ResOk(Reduced(s, k, i), s.heap)
  {
    var r := s.res[s.rib[k]];
    assert ResOk(r, s.heap);
    var ps' := RemoveAt(r.mpath, i);
    forall p <- ps' ensures p in s.heap { assert p in r.mpath; }
  }

  lemma ReducedConserves(ps: seq<Ptr>, i: nat)
    requires i < |ps| && Distinct(ps)
    ensures Conserved(ps, {}, RemoveAt(ps, i), {ps[i]})
  {
    RemoveAtMembers(ps, i);
  }

  lemma RoutePaths(s: State, k: RibKey)
    requires RoutesOk(s) && k in s.rib
    ensures Distinct(Paths(s, k)) && |Paths(s, k)| > 0 && Elems(Paths(s, k)) <= s.heap.Keys
  {
    assert ResOk(s.res[s.rib[k]], s.heap);
    PathsUnique(s.heap, Paths(s, k));
  }

  lemma UnlinkedCore(s: State, k: RibKey, i: nat, id: nat)
    requires Core(s, {}) && CanRemove(s, k, i, id)
    ensures Core(Unlinked(s, k, i, id), {Paths(s, k)[i]})
    ensures k.vrf in Unlinked(s, k, i, id).nb.cnt && Paths(s, k)[i] in Unlinked(s, k, i, id).heap
  {
    hide SlotsOk, TableOk, RefsOk, NeighBase, ResOk;
    RoutePaths(s, k);
    var p := Paths(s, k)[i];
    assert p in Elems(Paths(s, k));
    if |Paths(s, k)| == 1 {
      WithdrawCore(s, {}, k, {p});
    } else {
      ReducedOk(s, k, i);
      ReducedConserves(Paths(s, k), i);
      InstallCore(s, {}, k, id, Reduced(s, k, i), {p});
    }
  }

  lemma RemovedCore(s: State, k: RibKey, i: nat, id: nat)
    requires Core(s, {}) && CanRemove(s, k, i, id)
    ensures Core(Removed(s, k, i, id), {})
  {
    UnlinkedCore(s, k, i, id);
    var p := Paths(s, k)[i];
    ReleaseCore(Unlinked(s, k, i, id), k.vrf, p, {p});
    assert {p} - {p} == {};
  }

  // ---------------------------------------------------------------------------------------------
  // Removal of a prefix, and of all prefixes of a VRF

  lemma ReleaseHead(s: State, v: Vrf, ps: seq<Ptr>)
    requires Core(s, Elems(ps)) && Distinct(ps) && v in s.nb.cnt && ps != []
    ensures ps[0] in s.heap
    ensures var s' := Release(s, v, ps[0]);
            Core(s', Elems(ps[1..])) && v in s'.nb.cnt
            && s'.rib == s.rib && s'.fib == s.fib && s'.res == s.res && s'.ribCnt == s.ribCnt
  {
    hide SlotsOk, RoutesOk, TableOk, CountsOk, NeighBase;
    ReleaseCore(s, v, ps[0], Elems(ps));
    assert Elems(ps) - {ps[0]} == Elems(ps[1..]);
  }

  ghost function ReleaseAll(s: State, v: Vrf, ps: seq<Ptr>): (s': State)
    requires Core(s, Elems(ps)) && Distinct(ps) && v in s.nb.cnt
    ensures Core(s', {})
    ensures s'.rib == s.rib && s'.fib == s.fib && s'.res == s.res && s'.ribCnt == s.ribCnt
    decreases |ps|
  {
    hide SlotsOk, RoutesOk, TableOk, RefsOk, CountsOk, NeighBase;
    if ps == [] then
      assert Elems(ps) == {};
      s
    else
      ReleaseHead(s, v, ps);
      ReleaseAll(Release(s, v, ps[0]), v, ps[1..])
  }

  lemma WithdrawnCore(s: State, k: RibKey)
    requires Core(s, {}) && k in s.rib
    ensures InRange(s) && k.vrf in s.ribCnt && k.vrf in s.nb.cnt
    ensures Distinct(Paths(s, k)) && Core(Withdraw(s, k), Elems(Paths(s, k)))
  {
    RoutePaths(s, k);
    WithdrawCore(s, {}, k, Elems(Paths(s, k)));
  }

  ghost function Dropped(s: State, k: RibKey): (s': State)
    requires Core(s, {}) && k in s.rib
    ensures Core(s', {}) && s'.rib == s.rib - {k} && s'.fib == s.fib - {ToFib(k)} && s'.res == s.res - {s.rib[k]}
  {
    WithdrawnCore(s, k);
    ReleaseAll(Withdraw(s, k), k.vrf, Paths(s, k))
  }

  /** Drops the listed prefixes one after the other. */
  ghost function DropAll(s: State, ks: seq<RibKey>): (s': State)
    requires Core(s, {}) && Distinct(ks) && Elems(ks) <= s.rib.Keys
    ensures Core(s', {}) && s'.rib == s.rib - Elems(ks)
    decreases |ks|
  {
    hide SlotsOk, RoutesOk, TableOk, RefsOk, CountsOk, NeighBase;
    if ks == [] then s
    else
      InitElems(ks);
      Dropped(DropAll(s, ks[..|ks| - 1]), ks[|ks| - 1])
  }
}
