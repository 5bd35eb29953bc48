/** Properties that the route graph keeps only under a condition on its callers, with the exact condition over
    whole runs. */
module RouteLimits {
  import opened Sequences
  import opened RouteState
  import opened RouteInv
  import opened RouteOps
  import opened RouteAbs
  import opened RouteFib
  import opened RouteNeigh
  import opened RouteReset
  import opened RouteRuns

  // ---------------------------------------------------------------------------------------------
  // The path array of a slot

  /** Every path list fits the array that a slot declares for it. */
  ghost predicate Fits(s: State) {
    InRange(s) && forall k <- s.rib :: |Paths(s, k)| <= ROUTE_MAX_ECMP
  }

  ghost predicate AFits(a: Table) {
    forall k <- a :: |a[k].paths| <= ROUTE_MAX_ECMP
  }

  /** The operation adds a path to a prefix that has one already. */
  ghost predicate Extends(a: Table, op: Op, st: Status) {
    op.NhopInsert? && st == Ok && op.k in a && !APresent(a, op.k, op.n)
  }

  lemma FitsAbs(s: State)
    requires RoutesOk(s)
    ensures Fits(s) <==> AFits(Abs(s))
    ensures forall k <- Abs(s) :: Abs(s)[k].paths != []
  {
    AbsKeys(s);
    forall k <- s.rib ensures |Abs(s)[k].paths| == |Paths(s, k)| > 0 {
      assert ResOk(s.res[s.rib[k]], s.heap);
      RouteSummary(s, k);
    }
  }

  lemma AFitsNext(a: Table, op: Op, st: Status)
    requires AFits(a) && forall k <- a :: a[k].paths != []
    ensures AFits(ANext(a, op, st)) <==> !Extends(a, op, st)
  {
    hide APresent;
    var a' := ANext(a, op, st);
    if Extends(a, op, st) {
      assert |a'[op.k].paths| > ROUTE_MAX_ECMP;
    }
  }

  /** A step keeps all path lists within their arrays if and only if it adds no path to an existing prefix. */
  lemma StepFits(s: State, op: Op, st: Status, s': State)
    requires Core(s, {}) && Step(s, op, st, s') && Fits(s)
    ensures Fits(s') <==> !Extends(Abs(s), op, st)
  {
    hide SlotsOk, RoutesOk, TableOk, RefsOk, CountsOk, NeighBase, Step, Abs, ANext, ALegal, Fits, AFits, Extends;
    StepRefines(s, op, st, s');
    FitsAbs(s);
    FitsAbs(s');
    AFitsNext(Abs(s), op, st);
  }

  /** In particular, a first path fits and every further one does not. */
  lemma InsertedFits(s: State, k: RibKey, n: NhKey, t: RibType, p: Ptr, id: nat, nhOid: nat, neighOid: nat)
    requires Core(s, {}) && CanInsert(s, k, n, t, p, id) && Fits(s)
    ensures Fits(Inserted(s, k, n, t, p, id, nhOid, neighOid)) <==> k !in s.rib
  {
    hide SlotsOk, TableOk, RefsOk, CountsOk, NeighBase, Accepts, Inserted, Acquire;
    InsertedPaths(s, k, n, t, p, id, nhOid, neighOid);
    var s' := Inserted(s, k, n, t, p, id, nhOid, neighOid);
    if k in s.rib {
      assert ResOk(s.res[s.rib[k]], s.heap);
      assert |Paths(s', k)| > ROUTE_MAX_ECMP;
    }
  }

  const SLOT_BYTES: nat := 24
  const HEADER_BYTES: nat := 16
  const POINTER_BYTES: nat := 8

  /** The slot in whose memory path `i` of slot `id` is stored: four 32-bit words, then the array of pointers. */
  function PathHome(id: nat, i: nat): nat {
    (SLOT_BYTES * id + HEADER_BYTES + POINTER_BYTES * i) / SLOT_BYTES
  }

  lemma PathHomeOf(id: nat, i: nat)
    ensures PathHome(id, i) == id <==> i < ROUTE_MAX_ECMP
  {
  }

  /** Path lists fit exactly if every path is stored inside its own slot. */
  lemma FitsIsInside(s: State)
    requires InRange(s)
    ensures Fits(s) <==> forall k <- s.rib, i | 0 <= i < |Paths(s, k)| :: PathHome(s.rib[k], i) == s.rib[k]
  {
    hide PathHome;
    forall id: nat, i: nat ensures PathHome(id, i) == id <==> i < ROUTE_MAX_ECMP { PathHomeOf(id, i); }
    if k :| k in s.rib && |Paths(s, k)| > ROUTE_MAX_ECMP {
      assert PathHome(s.rib[k], ROUTE_MAX_ECMP) != s.rib[k];
    }
  }

  lemma InitFits(vrfs: set<Vrf>)
    ensures Fits(Init(vrfs))
  {
  }

  /** All path lists of a run fit their arrays if and only if no insert adds a second path to a prefix. */
  lemma {:induction false} RunFits(vrfs: set<Vrf>, ss: seq<State>, ops: seq<Op>, sts: seq<Status>, n: nat)
    requires IsRun(vrfs, ss, ops, sts) && n <= |ops|
    ensures (forall i | 0 <= i <= n :: Fits(ss[i])) <==>
            (forall i | 0 <= i < n :: !Extends(ARun(ops, sts, i), ops[i], sts[i]))
  {
    hide Core, Fits, Step, Abs, ALegal, Extends, ARun;
    if n == 0 {
      InitFits(vrfs);
    } else {
      RunFits(vrfs, ss, ops, sts, n - 1);
      RunRefines(vrfs, ss, ops, sts, n - 1);
      if forall i | 0 <= i <= n - 1 :: Fits(ss[i]) {
        StepFits(ss[n - 1], ops[n - 1], sts[n - 1], ss[n]);
      }
    }
  }

  // ---------------------------------------------------------------------------------------------
  // The neighbour counter of a VRF that is added again

  /** The operation makes the entry `nk` static, which a next hop had created. */
  ghost predicate TakesOver(s: State, op: Op, st: Status, nk: NeighKey) {
    && op.NeighAddStatic? && st == Ok && nk == NeighKey(op.v, op.g)
    && nk in s.nb.tbl && !s.nb.tbl[nk].isStatic
  }

  /** A static add makes its entry static and resolved with the given address; no other operation makes, changes
      or removes a static entry. */
  lemma StepStatics(s: State, op: Op, st: Status, s': State, v: Vrf)
    requires Tidy(s, v) && Step(s, op, st, s')
    ensures Statics(s'.nb)
         == if op.NeighAddStatic? && st == Ok then
              Statics(s.nb)[NeighKey(op.v, op.g) := MadeStatic(s.nb, NeighKey(op.v, op.g), op.mac)]
            else Statics(s.nb)
  {
    hide SlotsOk, TableOk, RefsOk, CountsOk, NeighBase, ResOk, FibOk, RefcntOk, ResolvedOk, CntOk, OneVrf, Inserted,
         CanInsert, Removed, CanRemove, Present, Linked, Dropped, DropAll, NeighStatic, Statics, MadeStatic;
    match op
    case NhopInsert(k, n, t) =>
      if s' != s {
        var p: Ptr, id: nat, nhOid: nat, neighOid: nat :|
          CanInsert(s, k, n, t, p, id) && s' == Inserted(s, k, n, t, p, id, nhOid, neighOid);
        InsertedKeeps(s, k, n, t, p, id, nhOid, neighOid);
      }
    case NhopDelete(k, n, t) =>
      if s' != s {
        var i: nat, id: nat :| CanRemove(s, k, i, id) && RemovesKey(s, k, i, n) && s' == Removed(s, k, i, id);
        AnyVrf(s, v, k.vrf);
        RemovedKeeps(s, k, i, id);
      }
    case RouteDelete(k) =>
      if k in s.rib {
        AnyVrf(s, v, k.vrf);
        DroppedKeeps(s, k);
      }
    case RouteCleanup(w) =>
      var ks: seq<RibKey> :| Lists(ks, s, w) && s' == DropAll(s, ks);
      AnyVrf(s, v, w);
      DropAllKeeps(s, w, ks);
    case NeighAddStatic(w, g, mac) => StaticMakes(s.nb, w, g, mac);
    case VrfReset(w) => TableStatics(s.nb, s'.nb);
  }

  lemma TableStatics(n: NeighTable, n': NeighTable)
    requires n'.tbl == n.tbl
    ensures Statics(n') == Statics(n)
  {
  }

  /** The operation is a static add of `nk` that succeeds. */
  ghost predicate AddsStatic(op: Op, st: Status, nk: NeighKey) {
    op.NeighAddStatic? && st == Ok && nk == NeighKey(op.v, op.g)
  }

  /** Event `i` is the last static add of `nk` that succeeds. */
  ghost predicate LastStatic(ops: seq<Op>, sts: seq<Status>, i: int, n: nat, nk: NeighKey)
    requires n <= |ops| == |sts|
  {
    0 <= i < n && AddsStatic(ops[i], sts[i], nk) && forall j | i < j < n :: !AddsStatic(ops[j], sts[j], nk)
  }

  lemma StaticEntry(n: NeighTable, nk: NeighKey)
    ensures nk in Statics(n) <==> nk in n.tbl && n.tbl[nk].isStatic
    ensures nk in Statics(n) ==>
              && Statics(n)[nk].dmac == n.tbl[nk].dmac
              && Statics(n)[nk].arpValid == n.tbl[nk].arpValid
  {
  }

  lemma {:induction false} RunStaticMap(
    vrfs: set<Vrf>, ss: seq<State>, ops: seq<Op>, sts: seq<Status>, n: nat, v: Vrf, nk: NeighKey)
    requires IsRun(vrfs, ss, ops, sts) && n <= |ops| && forall i | 0 <= i < n :: Tidy(ss[i], v)
    ensures nk in Statics(ss[n].nb) <==> exists i :: LastStatic(ops, sts, i, n, nk)
    ensures forall i | LastStatic(ops, sts, i, n, nk) ::
              nk in Statics(ss[n].nb) && Statics(ss[n].nb)[nk].arpValid && Statics(ss[n].nb)[nk].dmac == ops[i].mac
  {
    hide Core, Tidy, Step, Statics, LastStatic;
    if n == 0 {
      assert Statics(ss[0].nb) == map[] by { InitStatics(vrfs); }
      forall i ensures !LastStatic(ops, sts, i, 0, nk) { LastStaticInit(ops, sts, i, 0, nk); }
    } else {
      RunStaticMap(vrfs, ss, ops, sts, n - 1, v, nk);
      TidyCore(ss[n - 1], v);
      StepStatics(ss[n - 1], ops[n - 1], sts[n - 1], ss[n], v);
      forall i ensures LastStatic(ops, sts, i, n, nk)
                  <==> if AddsStatic(ops[n - 1], sts[n - 1], nk) then i == n - 1
                       else LastStatic(ops, sts, i, n - 1, nk)
      {
        LastStaticInit(ops, sts, i, n, nk);
      }
      if AddsStatic(ops[n - 1], sts[n - 1], nk) {
        assert LastStatic(ops, sts, n - 1, n, nk);
      } else if nk in Statics(ss[n].nb) {
        var i :| LastStatic(ops, sts, i, n - 1, nk);
        assert LastStatic(ops, sts, i, n, nk);
      }
    }
  }

  lemma LastStaticInit(ops: seq<Op>, sts: seq<Status>, i: int, n: nat, nk: NeighKey)
    requires n <= |ops| == |sts|
    ensures LastStatic(ops, sts, i, n, nk)
       <==> n > 0 && if AddsStatic(ops[n - 1], sts[n - 1], nk) then i == n - 1 else LastStatic(ops, sts, i, n - 1, nk)
  {
    hide AddsStatic;
  }

  lemma InitStatics(vrfs: set<Vrf>)
    ensures Statics(Init(vrfs).nb) == map[]
  {
  }

  /** An entry is static exactly if some static add of the run made it so, and then it is resolved with the
      address of the last one. */
  lemma RunStatics(vrfs: set<Vrf>, ss: seq<State>, ops: seq<Op>, sts: seq<Status>, n: nat, v: Vrf, nk: NeighKey)
    requires IsRun(vrfs, ss, ops, sts) && n <= |ops| && forall i | 0 <= i < n :: Tidy(ss[i], v)
    ensures nk in ss[n].nb.tbl && ss[n].nb.tbl[nk].isStatic <==> exists i :: LastStatic(ops, sts, i, n, nk)
    ensures forall i | LastStatic(ops, sts, i, n, nk) ::
              nk in ss[n].nb.tbl && ss[n].nb.tbl[nk].arpValid && ss[n].nb.tbl[nk].dmac == ops[i].mac
  {
    hide Core, Tidy, Step, Statics, LastStatic;
    RunStaticMap(vrfs, ss, ops, sts, n, v, nk);
    StaticEntry(ss[n].nb, nk);
  }

  /** The entries that static adds took over from next hops grow by the static adds that meet one. */
  lemma StepTakenOver(s: State, op: Op, st: Status, s': State, v: Vrf)
    requires Tidy(s, v) && Step(s, op, st, s')
    ensures forall nk :: nk in TakenOver(s'.nb) <==> nk in TakenOver(s.nb) || TakesOver(s, op, st, nk)
  {
    hide Core, FibOk, RefcntOk, ResolvedOk, CntOk, OneVrf, InsertStep, DeleteStep, Dropped, DropAll, NeighStatic,
         NeighReset, TakenOver, Statics, MadeStatic;
    if op.NeighAddStatic? && st == Ok {
      StaticTakes(s.nb, op.v, op.g, op.mac);
    } else {
      StepStatics(s, op, st, s', v);
      SameStatics(s.nb, s'.nb);
    }
  }

  /** The entries taken over are those of the static adds that met an entry of a next hop, however long ago. */
  lemma {:induction false} RunTakenOver(
    vrfs: set<Vrf>, ss: seq<State>, ops: seq<Op>, sts: seq<Status>, n: nat, v: Vrf, nk: NeighKey)
    requires IsRun(vrfs, ss, ops, sts) && n <= |ops| && forall i | 0 <= i < n :: Tidy(ss[i], v)
    ensures nk in TakenOver(ss[n].nb) <==> exists i :: 0 <= i < n && TakesOver(ss[i], ops[i], sts[i], nk)
  {
    hide Core, Tidy, Step, TakenOver, TakesOver;
    if n == 0 {
      assert TakenOver(ss[0].nb) == {} by { InitTakenOver(vrfs); }
    } else {
      RunTakenOver(vrfs, ss, ops, sts, n - 1, v, nk);
      TidyCore(ss[n - 1], v);
      StepTakenOver(ss[n - 1], ops[n - 1], sts[n - 1], ss[n], v);
    }
  }

  lemma InitTakenOver(vrfs: set<Vrf>)
    ensures TakenOver(Init(vrfs).nb) == {}
  {
  }

  /** A VRF without routes is added: the neighbour counting stays exact if and only if no static add of the run
      so far made an entry of this VRF static that a next hop had created. */
  lemma VrfAddExact(vrfs: set<Vrf>, ss: seq<State>, ops: seq<Op>, sts: seq<Status>, n: nat, v: Vrf)
    requires IsRun(vrfs, ss, ops, sts) && n < |ops| && ops[n] == VrfReset(v)
    requires (forall i | 0 <= i <= n :: Tidy(ss[i], v)) && KeysOf(ss[n].rib, v) == {}
    ensures Tidy(ss[n + 1], v) <==>
            forall i, g: nat | 0 <= i < n :: !TakesOver(ss[i], ops[i], sts[i], NeighKey(v, g))
  {
    hide Core, NeighOk, FibOk, TakenOver, TakesOver, NoneTakenOver, KeysOf;
    var s := ss[n];
    StepTidy(s, ops[n], sts[n], ss[n + 1], v);
    EmptyCount(s, v);
    InRangeOf(s, {});
    TakenOverIn(s.nb, v);
    forall i, g: nat | 0 <= i < n && TakesOver(ss[i], ops[i], sts[i], NeighKey(v, g))
      ensures NeighKey(v, g) in TakenOver(s.nb)
    {
      RunTakenOver(vrfs, ss, ops, sts, n, v, NeighKey(v, g));
    }
    if nk :| nk in TakenOver(s.nb) && nk.vrf == v {
      RunTakenOver(vrfs, ss, ops, sts, n, v, nk);
      var i :| 0 <= i < n && TakesOver(ss[i], ops[i], sts[i], nk);
      assert TakesOver(ss[i], ops[i], sts[i], NeighKey(v, nk.gateway));
    }
  }

  lemma EmptyCount(s: State, v: Vrf)
    requires Core(s, {}) && NeighOk(s, {}, v) && v in s.nb.cnt && KeysOf(s.rib, v) == {}
    ensures s.nb.cnt[v] == 0 <==> NoneTakenOver(s.nb, v)
  {
    hide NeighOk, NoneTakenOver, KeysOf, NeighBase;
    EmptyVrfCount(s, v);
  }
}
