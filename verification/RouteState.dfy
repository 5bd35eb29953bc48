/** The data of the software route graph and the effect of each of its primitive updates.

    A prefix in the RIB and in the FIB names a `fib_res` slot; the slot holds an ordered list of
    addresses of shared next hops; a next hop counts the path slots that point at it and holds one
    reference on the neighbour entry of its gateway. */
module RouteState {
  import opened Powers

  const ROUTE_MAX_ECMP: nat := 1
  const MROUTE_MAX_ECMP: nat := 8
  const NTB_NR_FIB_RES_ALL: nat := 800 * 1024
  const AF_INET: nat := 2

  /** The slot that `ntb_vrf_init` reserves first in the empty array. */
  const BLACKHOLE: nat := 0

  type Vrf = nat
  type Ptr = nat

  datatype RibType = RtDefault | RtMroute

  datatype Tunnel =
    | Vxlan(family: nat, remote: nat, local: nat, vni: nat, dscp: nat)
    | Tgre(family: nat, remote: nat, vpcid: nat, vmip: nat)

  /** Gateway and encapsulation: the key of the next-hop table and the argument of every path update. */
  datatype NhKey = NhKey(gateway: nat, tunnel: Tunnel)

  datatype Nhop = Nhop(key: NhKey, refCount: nat, neighOid: nat, nhOid: nat)

  datatype Flags = Flags(reject: bool, mroute: bool, nottl: bool)

  datatype FibRes = FibRes(oid: nat, flags: Flags, mpath: seq<Ptr>, mpathMax: nat)

  datatype RibKey = RibKey(vrf: Vrf, family: nat, len: nat, prefix: nat)

  /** The FIB of a VRF is keyed by the masked prefix and the length alone. */
  datatype FibKey = FibKey(vrf: Vrf, len: nat, prefix: nat)

  datatype NeighKey = NeighKey(vrf: Vrf, gateway: nat)

  datatype Neigh = Neigh(oid: nat, refcnt: nat, isStatic: bool, fastArp: bool, arpValid: bool, dmac: nat)

  datatype NeighTable = NeighTable(tbl: map<NeighKey, Neigh>, count: int, cnt: map<Vrf, int>)

  /** A snapshot of everything the agent can observe. `res` holds the used cells of the slot array only. */
  datatype State = State(
    rib: map<RibKey, nat>,
    fib: map<FibKey, nat>,
    res: map<nat, FibRes>,
    ribCnt: map<Vrf, int>,
    nhops: map<NhKey, Ptr>,
    heap: map<Ptr, Nhop>,
    nb: NeighTable)

  datatype Status =
    | Ok | NoMem | HashFull | NeighOidFail | NhOidFail
    | TypeNotSame | EcmpNoSpace | ResultNoSpace | PrefixNoSpace | PrefixNotFound

  // ---------------------------------------------------------------------------------------------
  // Pure helpers of route.h and route.c

  function RtypeOf(r: FibRes): RibType {
    if r.flags.mroute then RtMroute else RtDefault
  }

  function MaxPaths(t: RibType): nat {
    if t.RtMroute? then MROUTE_MAX_ECMP else ROUTE_MAX_ECMP
  }

  /** `fib_nhop_equal`: a TGRE next hop is compared without its gateway. */
  predicate NhopEqual(n: NhKey, arg: NhKey) {
    match n.tunnel
    case Vxlan(_, _, _, _, _) => n.gateway == arg.gateway && n.tunnel == arg.tunnel
    case Tgre(_, _, _, _) => n.tunnel == arg.tunnel
  }

  const NO_FLAGS: Flags := Flags(false, false, false)

  /** The slot of a route: `fib_res_obj_create` gives a unicast route the id of its sole next hop and a
      multicast route the number of its paths, and keeps the inherited flags but for the type bit. */
  function RouteRes(heap: map<Ptr, Nhop>, ps: seq<Ptr>, inherited: Flags, t: RibType): FibRes
    requires t.RtMroute? || (|ps| == 1 && ps[0] in heap)
  {
    FibRes(if t.RtMroute? then |ps| else heap[ps[0]].nhOid, inherited.(mroute := t.RtMroute?), ps, MaxPaths(t))
  }

  /** Clears the low `n` bits. */
  function Clear(a: nat, n: nat): nat {
    if n == 0 then a else 2 * Clear(a / 2, n - 1)
  }

  /** Two numbers agree with their low bits cleared exactly if they agree above them. */
  lemma {:induction false} ClearAgrees(a: nat, b: nat, n: nat)
    ensures Clear(a, n) == Clear(b, n) <==> a / Pow2(n) == b / Pow2(n)
  {
    if n > 0 {
      ClearAgrees(a / 2, b / 2, n - 1);
      DivModStep(a, Pow2(n - 1));
      DivModStep(b, Pow2(n - 1));
    }
  }

  /** Clearing the low bits changes nothing exactly if they are clear. */
  lemma {:induction false} ClearNone(a: nat, n: nat)
    ensures Clear(a, n) == a <==> a % Pow2(n) == 0
  {
    if n > 0 {
      ClearNone(a / 2, n - 1);
      DivModStep(a, Pow2(n - 1));
    }
  }

  /** Clears all but the leading `len` of 32 bits. */
  function Mask32(a: nat, len: nat): nat {
    if len > 32 then a else Clear(a, 32 - len)
  }

  /** The number that the leading `len` of 32 bits form. */
  function Leading(a: nat, len: nat): int
    requires len <= 32
  {
    a / Pow2(32 - len)
  }

  /** Masking identifies exactly the addresses with the same leading bits. */
  lemma MaskLeading(a: nat, b: nat, len: nat)
    requires len <= 32
    ensures Mask32(a, len) == Mask32(b, len) <==> Leading(a, len) == Leading(b, len)
  {
    ClearAgrees(a, b, 32 - len);
  }

  function ToFib(k: RibKey): FibKey {
    FibKey(k.vrf, k.len, Mask32(k.prefix, k.len))
  }

  const BLACKHOLE_RES: FibRes := FibRes(0, Flags(true, false, false), [], 0)

  /** The state `ntb_vrf_init` and `ntb_neigh_init` set up over the given VRF ids. */
  function Init(vrfs: set<Vrf>): State {
    State(map[], map[], map[BLACKHOLE := BLACKHOLE_RES], map v | v in vrfs :: 0, map[], map[],
          NeighTable(map[], 0, map v | v in vrfs :: 0))
  }

  // ---------------------------------------------------------------------------------------------
  // Neighbour table

  function NeighAcquire(n: NeighTable, v: Vrf, g: nat, oid: nat): (r: NeighTable)
    requires v in n.cnt
    ensures r.cnt.Keys == n.cnt.Keys
  {
    var k := NeighKey(v, g);
    if k in n.tbl then n.(tbl := n.tbl[k := n.tbl[k].(refcnt := n.tbl[k].refcnt + 1)])
    else NeighTable(n.tbl[k := Neigh(oid, 1, false, true, false, 0)], n.count + 1, n.cnt[v := n.cnt[v] + 1])
  }

  function NeighRelease(n: NeighTable, v: Vrf, g: nat): (r: NeighTable)
    requires v in n.cnt
    ensures r.cnt.Keys == n.cnt.Keys
  {
    var k := NeighKey(v, g);
    if k !in n.tbl then n
    else if n.tbl[k].refcnt > 1 then n.(tbl := n.tbl[k := n.tbl[k].(refcnt := n.tbl[k].refcnt - 1)])
    else NeighTable(n.tbl - {k}, n.count - 1, n.cnt[v := n.cnt[v] - 1])
  }

  function NeighStatic(n: NeighTable, v: Vrf, g: nat, mac: nat): NeighTable {
    var k := NeighKey(v, g);
    var e := if k in n.tbl then n.tbl[k] else Neigh(0, 0, false, false, false, 0);
    var e' := e.(refcnt := if e.isStatic then e.refcnt else e.refcnt + 1,
                 isStatic := true, arpValid := true, dmac := mac);
    NeighTable(n.tbl[k := e'], if k in n.tbl then n.count else n.count + 1, n.cnt)
  }

  /** A VRF that is added starts with no neighbours counted. */
  function NeighReset(n: NeighTable, v: Vrf): NeighTable
    requires v in n.cnt
  {
    n.(cnt := n.cnt[v := 0])
  }

  // ---------------------------------------------------------------------------------------------
  // Next hops

  /** Takes one reference on the next hop of key `n`, creating it at address `p` if it is not live. */
  function Acquire(s: State, v: Vrf, n: NhKey, p: Ptr, nhOid: nat, neighOid: nat): (r: State)
    requires v in s.nb.cnt
    requires n in s.nhops ==> p in s.heap
    ensures r.rib == s.rib && r.fib == s.fib && r.res == s.res && r.ribCnt == s.ribCnt && r.nb.cnt.Keys == s.nb.cnt.Keys
  {
    if n in s.nhops then
      s.(heap := s.heap[p := s.heap[p].(refCount := s.heap[p].refCount + 1)])
    else
      var nb := if n.gateway != 0 then NeighAcquire(s.nb, v, n.gateway, neighOid) else s.nb;
      var oid := if n.gateway != 0 then nb.tbl[NeighKey(v, n.gateway)].oid else 0;
      s.(nhops := s.nhops[n := p], heap := s.heap[p := Nhop(n, 1, oid, nhOid)], nb := nb)
  }

  /** Gives one reference back and frees the next hop with the last one. */
  function Release(s: State, v: Vrf, p: Ptr): (r: State)
    requires v in s.nb.cnt && p in s.heap
    ensures r.rib == s.rib && r.fib == s.fib && r.res == s.res && r.ribCnt == s.ribCnt && r.nb.cnt.Keys == s.nb.cnt.Keys
  {
    var h := s.heap[p];
    if h.refCount > 1 then s.(heap := s.heap[p := h.(refCount := h.refCount - 1)])
    else
      s.(nhops := s.nhops - {h.key}, heap := s.heap - {p},
         nb := if h.key.gateway != 0 then NeighRelease(s.nb, v, h.key.gateway) else s.nb)
  }

  // ---------------------------------------------------------------------------------------------
  // Prefixes

  /** Points prefix `k` at the new slot `id` holding `r` and frees the slot it used before, if any. */
  function Install(s: State, k: RibKey, id: nat, r: FibRes): State
    requires k.vrf in s.ribCnt
  {
    s.(rib := s.rib[k := id],
       fib := s.fib[ToFib(k) := id],
       res := (if k in s.rib then s.res - {s.rib[k]} else s.res)[id := r],
       ribCnt := if k in s.rib then s.ribCnt else s.ribCnt[k.vrf := s.ribCnt[k.vrf] + 1])
  }

  /** Removes prefix `k` and frees its slot. */
  function Withdraw(s: State, k: RibKey): State
    requires k in s.rib && k.vrf in s.ribCnt
  {
    s.(rib := s.rib - {k}, fib := s.fib - {ToFib(k)}, res := s.res - {s.rib[k]},
       ribCnt := s.ribCnt[k.vrf := s.ribCnt[k.vrf] - 1])
  }
}
