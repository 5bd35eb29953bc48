/** The structural invariant of the route graph and its preservation by the primitive updates.

    The invariant takes the set of references that the running operation holds on next hops and has not
    yet stored in (or has already removed from) a path list. Between operations that set is empty. */
module RouteInv {
  import opened RouteState

  /** The path list of a prefix. */
  function Paths(s: State, k: RibKey): seq<Ptr>
    requires k in s.rib && s.rib[k] in s.res
  {
    s.res[s.rib[k]].mpath
  }

  ghost predicate InRange(s: State) {
    forall k <- s.rib :: s.rib[k] in s.res
  }

  /** The prefixes, over all VRFs, whose path list points at `p`. */
  ghost function Users(s: State, p: Ptr): set<RibKey>
    requires InRange(s)
  {
    set k | k in s.rib && p in Paths(s, k)
  }

  ghost function KeysOf(rib: map<RibKey, nat>, v: Vrf): set<RibKey> {
    set k | k in rib && k.vrf == v
  }

  /** Used slots are the blackhole slot and one slot of its own for each prefix. */
  ghost predicate SlotsOk(s: State) {
    && InRange(s)
    && BLACKHOLE in s.res && s.res[BLACKHOLE] == BLACKHOLE_RES
    && (forall k <- s.rib :: s.rib[k] != BLACKHOLE)
    && (forall j <- s.rib, k <- s.rib :: s.rib[j] == s.rib[k] ==> j == k)
    && (forall i <- s.res :: i == BLACKHOLE || i in s.rib.Values)
  }

  ghost predicate PathsDistinct(heap: map<Ptr, Nhop>, ps: seq<Ptr>)
    requires forall p <- ps :: p in heap
  {
    forall i, j | 0 <= i < j < |ps| :: !NhopEqual(heap[ps[i]].key, heap[ps[j]].key)
  }

  /** A route's slot: its type, its limit, its flags and its object id agree with its path list. */
  ghost predicate ResOk(r: FibRes, heap: map<Ptr, Nhop>) {
    && 1 <= |r.mpath| <= r.mpathMax == MaxPaths(RtypeOf(r))
    && !r.flags.reject
    && (forall p <- r.mpath :: p in heap)
    && PathsDistinct(heap, r.mpath)
    && r.oid == (if RtypeOf(r).RtMroute? then |r.mpath| else heap[r.mpath[0]].nhOid)
  }

  ghost predicate RoutesOk(s: State) {
    InRange(s) && forall k <- s.rib :: ResOk(s.res[s.rib[k]], s.heap)
  }

  /** The next-hop table is a bijection between keys and live next hops. */
  ghost predicate TableOk(s: State) {
    && (forall n <- s.nhops :: s.nhops[n] in s.heap && s.heap[s.nhops[n]].key == n)
    && (forall p <- s.heap :: s.heap[p].key in s.nhops && s.nhops[s.heap[p].key] == p)
  }

  function Held(p: Ptr, held: set<Ptr>): nat {
    if p in held then 1 else 0
  }

  /** Reference counts are exact and a next hop lives exactly as long as something refers to it. */
  ghost predicate RefsOk(s: State, held: set<Ptr>) {
    && InRange(s)
    && held <= s.heap.Keys
    && (forall p <- s.heap :: s.heap[p].refCount > 0)
    && (forall p {:trigger Users(s, p)} | p in s.heap :: s.heap[p].refCount == |Users(s, p)| + Held(p, held))
  }

  ghost predicate CountsOk(s: State) {
    && s.ribCnt.Keys == s.nb.cnt.Keys
    && (forall k <- s.rib :: k.vrf in s.ribCnt && k.len <= 32)
    && (forall v {:trigger KeysOf(s.rib, v)} | v in s.ribCnt :: s.ribCnt[v] == |KeysOf(s.rib, v)|)
  }

  /** The table's count is its size, no entry is without users, and the resolved entries are the static ones. */
  ghost predicate NeighBase(n: NeighTable) {
    n.count == |n.tbl| && forall k <- n.tbl :: n.tbl[k].refcnt > 0 && (n.tbl[k].arpValid <==> n.tbl[k].isStatic)
  }

  ghost predicate Core(s: State, held: set<Ptr>) {
    SlotsOk(s) && RoutesOk(s) && TableOk(s) && RefsOk(s, held) && CountsOk(s) && NeighBase(s.nb)
  }

  lemma InitCore(vrfs: set<Vrf>)
    ensures Core(Init(vrfs), {})
  {
    forall v <- vrfs ensures KeysOf(Init(vrfs).rib, v) == {} {}
  }

  // ---------------------------------------------------------------------------------------------
  // Neighbour table

  lemma NeighReleaseBase(n: NeighTable, v: Vrf, g: nat)
    requires NeighBase(n) && v in n.cnt
    ensures NeighBase(NeighRelease(n, v, g))
  {
    var k := NeighKey(v, g);
    if k in n.tbl {
      assert (n.tbl - {k}).Keys == n.tbl.Keys - {k};
    }
  }

  lemma NeighAcquireBase(n: NeighTable, v: Vrf, g: nat, oid: nat)
    requires NeighBase(n) && v in n.cnt
    ensures NeighBase(NeighAcquire(n, v, g, oid))
  {
    var k := NeighKey(v, g);
    var n' := NeighAcquire(n, v, g, oid);
    assert n'.tbl.Keys == n.tbl.Keys + {k};
  }

  /** Acquire followed by release is the identity: the rollback of a failed next-hop creation is exact. */
  lemma NeighRoundTrip(n: NeighTable, v: Vrf, g: nat, oid: nat)
    requires NeighBase(n) && v in n.cnt
    ensures NeighRelease(NeighAcquire(n, v, g, oid), v, g) == n
  {
    var k := NeighKey(v, g);
    var n1 := NeighAcquire(n, v, g, oid);
    var n2 := NeighRelease(n1, v, g);
    assert n2.tbl == n.tbl;
    assert n2.cnt == n.cnt;
  }

  // ---------------------------------------------------------------------------------------------
  // Next hops

  /** `p` is the address of the live next hop of key `n`, or a free address if there is none. */
  ghost predicate Designates(s: State, n: NhKey, p: Ptr) {
    if n in s.nhops then p == s.nhops[n] else p !in s.heap
  }

  lemma ResOkHeap(r: FibRes, h: map<Ptr, Nhop>, h': map<Ptr, Nhop>)
    requires ResOk(r, h)
    requires forall p <- r.mpath :: p in h' && h'[p].key == h[p].key && h'[p].nhOid == h[p].nhOid
    ensures ResOk(r, h')
  {
    assert r.mpath[0] in r.mpath;
  }

  /** Two states with the same prefixes and slots have the same users of every next hop. */
  lemma SameUsers(s: State, s': State, p: Ptr)
    requires InRange(s) && s'.rib == s.rib && s'.res == s.res
    ensures InRange(s') && Users(s', p) == Users(s, p)
  {
  }

  lemma RoutesHeap(s: State, s': State)
    requires RoutesOk(s) && s'.rib == s.rib && s'.res == s.res
    requires forall k <- s.rib, p <- Paths(s, k) ::
               p in s.heap && p in s'.heap && s'.heap[p].key == s.heap[p].key && s'.heap[p].nhOid == s.heap[p].nhOid
    ensures RoutesOk(s')
  {
    forall k <- s.rib ensures ResOk(s.res[s.rib[k]], s'.heap) {
      ResOkHeap(s.res[s.rib[k]], s.heap, s'.heap);
    }
  }

  lemma NoUsers(s: State, p: Ptr)
    requires RoutesOk(s) && p !in s.heap
    ensures Users(s, p) == {}
  {
    forall k <- s.rib ensures p !in Paths(s, k) {
      assert ResOk(s.res[s.rib[k]], s.heap);
    }
  }

  /** The invariant asks little of the neighbour table. */
  lemma NbCore(s: State, n: NeighTable)
    requires Core(s, {}) && NeighBase(n) && n.cnt.Keys == s.nb.cnt.Keys
    ensures Core(s.(nb := n), {})
  {
    hide NeighBase, ResOk;
    var s' := s.(nb := n);
    NbTable(s, s');
    hide TableOk;
    forall p: Ptr ensures Users(s', p) == Users(s, p) { SameUsers(s, s', p); }
  }

  lemma NbTable(s: State, s': State)
    requires TableOk(s) && s'.nhops == s.nhops && s'.heap == s.heap
    ensures TableOk(s')
  {
  }

  lemma AcquireFrame(s: State, v: Vrf, n: NhKey, p: Ptr, nhOid: nat, neighOid: nat)
    requires SlotsOk(s) && CountsOk(s) && NeighBase(s.nb) && v in s.nb.cnt && (n in s.nhops ==> p in s.heap)
    ensures var s' := Acquire(s, v, n, p, nhOid, neighOid); SlotsOk(s') && CountsOk(s') && NeighBase(s'.nb)
  {
    NeighAcquireBase(s.nb, v, n.gateway, neighOid);
  }

  lemma ReleaseFrame(s: State, v: Vrf, p: Ptr)
    requires SlotsOk(s) && CountsOk(s) && v in s.nb.cnt && p in s.heap
    ensures SlotsOk(Release(s, v, p)) && CountsOk(Release(s, v, p))
  {
    var s' := Release(s, v, p);
    assert s'.rib == s.rib && s'.res == s.res && s'.ribCnt == s.ribCnt && s'.nb.cnt.Keys == s.nb.cnt.Keys;
  }

  lemma ReleaseNeigh(s: State, v: Vrf, p: Ptr)
    requires NeighBase(s.nb) && v in s.nb.cnt && p in s.heap
    ensures NeighBase(Release(s, v, p).nb)
  {
    var h := s.heap[p];
    if h.refCount > 1 || h.key.gateway == 0 {
      assert Release(s, v, p).nb == s.nb;
    } else {
      NeighReleaseBase(s.nb, v, h.key.gateway);
      assert Release(s, v, p).nb == NeighRelease(s.nb, v, h.key.gateway);
    }
  }

  lemma AcquireRefs(s: State, v: Vrf, n: NhKey, p: Ptr, nhOid: nat, neighOid: nat)
    requires RoutesOk(s) && TableOk(s) && RefsOk(s, {}) && v in s.nb.cnt && Designates(s, n, p)
    ensures RefsOk(Acquire(s, v, n, p, nhOid, neighOid), {p})
  {
    hide NeighAcquire, ResOk;
    var s' := Acquire(s, v, n, p, nhOid, neighOid);
    if n !in s.nhops {
      NoUsers(s, p);
    }
    forall q | q in s'.heap ensures 0 < s'.heap[q].refCount == |Users(s', q)| + Held(q, {p}) {
      SameUsers(s, s', q);
    }
  }

  lemma AcquireTable(s: State, v: Vrf, n: NhKey, p: Ptr, nhOid: nat, neighOid: nat)
    requires TableOk(s) && v in s.nb.cnt && Designates(s, n, p)
    ensures TableOk(Acquire(s, v, n, p, nhOid, neighOid))
  {
  }

  lemma AcquireRoutes(s: State, v: Vrf, n: NhKey, p: Ptr, nhOid: nat, neighOid: nat)
    requires RoutesOk(s) && TableOk(s) && v in s.nb.cnt && Designates(s, n, p)
    ensures RoutesOk(Acquire(s, v, n, p, nhOid, neighOid))
  {
    var s' := Acquire(s, v, n, p, nhOid, neighOid);
    forall k <- s.rib, q <- Paths(s, k)
      ensures q in s.heap && q in s'.heap && s'.heap[q].key == s.heap[q].key && s'.heap[q].nhOid == s.heap[q].nhOid
    {
      assert ResOk(s.res[s.rib[k]], s.heap);
    }
    RoutesHeap(s, s');
  }

  lemma AcquireCore(s: State, v: Vrf, n: NhKey, p: Ptr, nhOid: nat, neighOid: nat)
    requires Core(s, {}) && v in s.nb.cnt && Designates(s, n, p)
    ensures Core(Acquire(s, v, n, p, nhOid, neighOid), {p})
  {
    AcquireRefs(s, v, n, p, nhOid, neighOid);
    AcquireTable(s, v, n, p, nhOid, neighOid);
    AcquireRoutes(s, v, n, p, nhOid, neighOid);
    AcquireFrame(s, v, n, p, nhOid, neighOid);
  }

  lemma ReleaseRefs(s: State, v: Vrf, p: Ptr, held: set<Ptr>)
    requires RefsOk(s, held) && v in s.nb.cnt && p in held
    ensures RefsOk(Release(s, v, p), held - {p})
  {
    var s' := Release(s, v, p);
    forall q | q in s'.heap ensures 0 < s'.heap[q].refCount == |Users(s', q)| + Held(q, held - {p}) {
      SameUsers(s, s', q);
    }
  }

  lemma ReleaseTable(s: State, v: Vrf, p: Ptr)
    requires TableOk(s) && v in s.nb.cnt && p in s.heap
    ensures TableOk(Release(s, v, p))
  {
  }

  lemma ReleaseRoutes(s: State, v: Vrf, p: Ptr, held: set<Ptr>)
    requires RoutesOk(s) && RefsOk(s, held) && v in s.nb.cnt && p in held
    ensures RoutesOk(Release(s, v, p))
  {
    var s' := Release(s, v, p);
    forall k <- s.rib, q <- Paths(s, k)
      ensures q in s.heap && q in s'.heap && s'.heap[q].key == s.heap[q].key && s'.heap[q].nhOid == s.heap[q].nhOid
    {
      assert ResOk(s.res[s.rib[k]], s.heap);
      assert k in Users(s, q);
    }
    RoutesHeap(s, s');
  }

  lemma ReleaseCore(s: State, v: Vrf, p: Ptr, held: set<Ptr>)
    requires Core(s, held) && v in s.nb.cnt && p in held
    ensures Core(Release(s, v, p), held - {p})
  {
    ReleaseRefs(s, v, p, held);
    ReleaseTable(s, v, p);
    ReleaseRoutes(s, v, p, held);
    ReleaseFrame(s, v, p);
    ReleaseNeigh(s, v, p);
  }

  // ---------------------------------------------------------------------------------------------
  // Prefixes

  /** References are only moved between the path list of one prefix and the operation's hands. */
  ghost predicate Conserved(ps: seq<Ptr>, held: set<Ptr>, ps': seq<Ptr>, held': set<Ptr>) {
    forall p: Ptr :: (if p in ps then 1 else 0) + Held(p, held) == (if p in ps' then 1 else 0) + Held(p, held')
  }

  ghost function OldPaths(s: State, k: RibKey): seq<Ptr>
    requires InRange(s)
  {
    if k in s.rib then Paths(s, k) else []
  }

  /** `s'` differs from `s` at prefix `k` only. */
  ghost predicate OnlyAt(s: State, s': State, k: RibKey) {
    && InRange(s) && InRange(s') && s'.heap == s.heap
    && forall j | j != k ::
         (j in s'.rib <==> j in s.rib) && (j in s.rib ==> s'.rib[j] == s.rib[j] && Paths(s', j) == Paths(s, j))
  }

  lemma CardAt<T>(a: set<T>, b: set<T>, x: T)
    requires a - {x} == b - {x}
    ensures |b| + (if x in a then 1 else 0) == |a| + (if x in b then 1 else 0)
  {
    assert |a| == |a - {x}| + (if x in a then 1 else 0);
    assert |b| == |b - {x}| + (if x in b then 1 else 0);
  }

  lemma MovedUsers(s: State, s': State, k: RibKey, p: Ptr)
    requires OnlyAt(s, s', k)
    ensures |Users(s', p)| + (if p in OldPaths(s, k) then 1 else 0)
         == |Users(s, p)| + (if p in OldPaths(s', k) then 1 else 0)
  {
    assert Users(s, p) - {k} == Users(s', p) - {k};
    CardAt(Users(s, p), Users(s', p), k);
  }

  lemma MovedRefs(s: State, s': State, k: RibKey, held: set<Ptr>, held': set<Ptr>)
    requires RefsOk(s, held) && OnlyAt(s, s', k) && held' <= s.heap.Keys
    requires Conserved(OldPaths(s, k), held, OldPaths(s', k), held')
    ensures RefsOk(s', held')
  {
    forall p <- s'.heap ensures s.heap[p].refCount == |Users(s', p)| + Held(p, held') {
      MovedUsers(s, s', k, p);
    }
  }

  lemma InstallSlots(s: State, k: RibKey, id: nat, r: FibRes)
    requires SlotsOk(s) && k.vrf in s.ribCnt && id !in s.res
    ensures var s' := Install(s, k, id, r);
            SlotsOk(s') && OnlyAt(s, s', k) && OldPaths(s', k) == r.mpath
            && forall j <- s.rib | j != k :: s'.res[s'.rib[j]] == s.res[s.rib[j]]
  {
    var s' := Install(s, k, id, r);
    forall i <- s'.res ensures i == BLACKHOLE || i in s'.rib.Values {
      if i == id {
        assert s'.rib[k] == i;
      } else if i != BLACKHOLE {
        var j :| j in s.rib && s.rib[j] == i;
        assert s'.rib[j] == i;
      }
    }
  }

  lemma InstallCounts(s: State, k: RibKey, id: nat, r: FibRes)
    requires CountsOk(s) && k.vrf in s.ribCnt && k.len <= 32
    ensures CountsOk(Install(s, k, id, r))
  {
    var s' := Install(s, k, id, r);
    forall v <- s'.ribCnt ensures s'.ribCnt[v] == |KeysOf(s'.rib, v)| {
      assert KeysOf(s.rib, v) - {k} == KeysOf(s'.rib, v) - {k};
      CardAt(KeysOf(s.rib, v), KeysOf(s'.rib, v), k);
    }
  }

  lemma InstallRoutes(s: State, k: RibKey, id: nat, r: FibRes)
    requires SlotsOk(s) && RoutesOk(s) && k.vrf in s.ribCnt && id !in s.res && ResOk(r, s.heap)
    ensures RoutesOk(Install(s, k, id, r))
  {
    InstallSlots(s, k, id, r);
    var s' := Install(s, k, id, r);
    forall j <- s'.rib ensures ResOk(s'.res[s'.rib[j]], s'.heap) {
      if j != k {
        assert s'.res[s'.rib[j]] == s.res[s.rib[j]];
      }
    }
  }

  lemma InstallCore(s: State, held: set<Ptr>, k: RibKey, id: nat, r: FibRes, held': set<Ptr>)
    requires Core(s, held) && k.vrf in s.ribCnt && k.len <= 32 && id !in s.res && ResOk(r, s.heap)
    requires Conserved(OldPaths(s, k), held, r.mpath, held') && held' <= s.heap.Keys
    ensures Core(Install(s, k, id, r), held')
  {
    InstallSlots(s, k, id, r);
    InstallRoutes(s, k, id, r);
    InstallCounts(s, k, id, r);
    MovedRefs(s, Install(s, k, id, r), k, held, held');
  }

  lemma WithdrawSlots(s: State, k: RibKey)
    requires SlotsOk(s) && k in s.rib && k.vrf in s.ribCnt
    ensures var s' := Withdraw(s, k);
            SlotsOk(s') && OnlyAt(s, s', k) && OldPaths(s', k) == []
            && forall j <- s'.rib :: s'.res[s'.rib[j]] == s.res[s.rib[j]]
  {
    var s' := Withdraw(s, k);
    forall i <- s'.res ensures i == BLACKHOLE || i in s'.rib.Values {
      if i != BLACKHOLE {
        var j :| j in s.rib && s.rib[j] == i;
        assert s'.rib[j] == i;
      }
    }
  }

  lemma WithdrawCounts(s: State, k: RibKey)
    requires CountsOk(s) && k in s.rib
    ensures CountsOk(Withdraw(s, k))
  {
    var s' := Withdraw(s, k);
    forall v <- s'.ribCnt ensures s'.ribCnt[v] == |KeysOf(s'.rib, v)| {
      assert KeysOf(s.rib, v) - {k} == KeysOf(s'.rib, v) - {k};
      CardAt(KeysOf(s.rib, v), KeysOf(s'.rib, v), k);
    }
  }

  lemma WithdrawCore(s: State, held: set<Ptr>, k: RibKey, held': set<Ptr>)
    requires Core(s, held) && k in s.rib
    requires Conserved(Paths(s, k), held, [], held') && held' <= s.heap.Keys
    ensures Core(Withdraw(s, k), held')
  {
    WithdrawSlots(s, k);
    WithdrawCounts(s, k);
    MovedRefs(s, Withdraw(s, k), k, held, held');
    assert RoutesOk(Withdraw(s, k));
  }

  /** The used slots number one more than the prefixes. */
  lemma SlotCount(s: State)
    requires SlotsOk(s)
    ensures |s.res| == 1 + |s.rib|
  {
    ValuesCount(s.rib);
    assert s.res.Keys == {BLACKHOLE} + s.rib.Values by {
      assert forall i <- s.rib.Values :: i in s.res;
    }
    assert BLACKHOLE !in s.rib.Values;
  }

  lemma {:induction false} ValuesCount(m: map<RibKey, nat>)
    requires forall j <- m, k <- m :: m[j] == m[k] ==> j == k
    ensures |m.Values| == |m|
    decreases |m|
  {
    if m.Keys != {} {
      var k :| k in m;
      var m' := m - {k};
      assert m'.Keys == m.Keys - {k};
      assert m'.Values == m.Values - {m[k]} by {
        forall x <- m.Values - {m[k]} ensures x in m'.Values {
          var j :| j in m && m[j] == x;
          assert m'[j] == x;
        }
      }
      ValuesCount(m');
    } else {
      assert m.Values == {};
    }
  }
}
