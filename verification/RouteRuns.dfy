/** Runs of the route graph: every sequence of operations, with every outcome the environment may force on
    each of them, and what holds in all states of such a run. */
module RouteRuns {
  import opened Sequences
  import opened RouteState
  import opened RouteInv
  import opened RouteOps
  import opened RouteAbs
  import opened RouteFib
  import opened RouteNeigh
  import opened RouteReset

  datatype Op =
    | NhopInsert(k: RibKey, n: NhKey, t: RibType)
    | NhopDelete(k: RibKey, n: NhKey, t: RibType)
    | RouteDelete(k: RibKey)
    | RouteCleanup(v: Vrf)
    | NeighAddStatic(v: Vrf, g: nat, mac: nat)
    | VrfReset(v: Vrf)                          // what adding a VRF does to these tables

  predicate Starved(st: Status) {
    st in {NoMem, HashFull, NeighOidFail, NhOidFail, ResultNoSpace, PrefixNoSpace}
  }

  // ---------------------------------------------------------------------------------------------
  // Concrete steps

  ghost predicate InsertStep(s: State, k: RibKey, n: NhKey, t: RibType, st: Status, s': State)
    requires Core(s, {})
  {
    if k in s.rib && RtypeOf(s.res[s.rib[k]]) != t then st == TypeNotSame && s' == s
    else if k in s.rib && |Paths(s, k)| >= s.res[s.rib[k]].mpathMax then st == EcmpNoSpace && s' == s
    else if Present(s, k, n) then st == Ok && s' == s
    else
      || (Starved(st) && s' == s)
      || (st == Ok && exists p: Ptr, id: nat, nhOid: nat, neighOid: nat ::
            CanInsert(s, k, n, t, p, id) && s' == Inserted(s, k, n, t, p, id, nhOid, neighOid))
  }

  ghost predicate Linked(s: State, k: RibKey, n: NhKey)
    requires RoutesOk(s)
  {
    k in s.rib && exists p <- Paths(s, k) :: p in s.heap && s.heap[p].key == n
  }

  ghost predicate DeleteStep(s: State, k: RibKey, n: NhKey, t: RibType, st: Status, s': State)
    requires Core(s, {})
  {
    if k in s.rib && RtypeOf(s.res[s.rib[k]]) != t then st == TypeNotSame && s' == s
    else if !Linked(s, k, n) then st == Ok && s' == s
    else
      || (st in {ResultNoSpace, PrefixNoSpace} && |Paths(s, k)| > 1 && s' == s)
      || (st == Ok && exists i: nat, id: nat ::
            CanRemove(s, k, i, id) && RemovesKey(s, k, i, n) && s' == Removed(s, k, i, id))
  }

  ghost predicate RemovesKey(s: State, k: RibKey, i: nat, n: NhKey) {
    && k in s.rib && s.rib[k] in s.res && i < |Paths(s, k)|
    && Paths(s, k)[i] in s.heap && s.heap[Paths(s, k)[i]].key == n
  }

  /** `ks` lists the prefixes of VRF `v`, each once, in any order. */
  ghost predicate Lists(ks: seq<RibKey>, s: State, v: Vrf) {
    Distinct(ks) && Elems(ks) == KeysOf(s.rib, v)
  }

  ghost predicate Step(s: State, op: Op, st: Status, s': State)
    requires Core(s, {})
  {
    match op
    case NhopInsert(k, n, t) => InsertStep(s, k, n, t, st, s')
    case NhopDelete(k, n, t) => DeleteStep(s, k, n, t, st, s')
    case RouteDelete(k) => if k in s.rib then st == Ok && s' == Dropped(s, k) else st == PrefixNotFound && s' == s
    case RouteCleanup(v) => st == Ok && exists ks: seq<RibKey> :: Lists(ks, s, v) && s' == DropAll(s, ks)
    case NeighAddStatic(v, g, mac) =>
      || (Starved(st) && s' == s)
      || (st == Ok && s' == s.(nb := NeighStatic(s.nb, v, g, mac)))
    case VrfReset(v) => st == Ok && v in s.nb.cnt && s' == s.(nb := NeighReset(s.nb, v))
  }

  // ---------------------------------------------------------------------------------------------
  // Abstract steps

  /** The statuses an operation may return, decided by the abstract table but for resource shortage. */
  ghost predicate ALegal(a: Table, op: Op, st: Status) {
    match op
    case NhopInsert(k, n, t) =>
      if k in a && a[k].rtype != t then st == TypeNotSame
      else if k in a && |a[k].paths| >= MaxPaths(t) then st == EcmpNoSpace
      else st == Ok || (Starved(st) && !APresent(a, k, n))
    case NhopDelete(k, n, t) =>
      if k in a && a[k].rtype != t then st == TypeNotSame
      else st == Ok || (st in {ResultNoSpace, PrefixNoSpace} && k in a && n in a[k].paths && |a[k].paths| > 1)
    case RouteDelete(k) => st == if k in a then Ok else PrefixNotFound
    case RouteCleanup(v) => st == Ok
    case NeighAddStatic(v, g, mac) => st == Ok || Starved(st)
    case VrfReset(v) => st == Ok
  }

  /** A failed operation changes nothing; an insert appends unless an equal next hop is there; a delete
      removes the keyed next hop, and the prefix with its last one. */
  ghost function ANext(a: Table, op: Op, st: Status): Table {
    if st != Ok then a
    else
      match op
      case NhopInsert(k, n, t) => if APresent(a, k, n) then a else AInsert(a, k, n, t)
      case NhopDelete(k, n, t) => ARemove(a, k, n)
      case RouteDelete(k) => a - {k}
      case RouteCleanup(v) => a - set k | k in a && k.vrf == v
      case NeighAddStatic(v, g, mac) => a
      case VrfReset(v) => a
  }

  lemma PresentAbs(s: State, k: RibKey, n: NhKey)
    requires RoutesOk(s)
    ensures Present(s, k, n) <==> APresent(Abs(s), k, n)
  {
    if k in s.rib {
      assert ResOk(s.res[s.rib[k]], s.heap);
      var ps, ns := Paths(s, k), Abs(s)[k].paths;
      if Present(s, k, n) {
        var p :| p in ps && NhopEqual(s.heap[p].key, n);
        var i :| 0 <= i < |ps| && ps[i] == p;
        assert ns[i] in ns;
      }
      if APresent(Abs(s), k, n) {
        var m :| m in ns && NhopEqual(m, n);
        var i :| 0 <= i < |ns| && ns[i] == m;
        assert ps[i] in ps;
      }
    }
  }

  lemma LinkedAbs(s: State, k: RibKey, n: NhKey)
    requires RoutesOk(s)
    ensures Linked(s, k, n) <==> k in Abs(s) && n in Abs(s)[k].paths
  {
    if k in s.rib {
      assert ResOk(s.res[s.rib[k]], s.heap);
      var ps, ns := Paths(s, k), Abs(s)[k].paths;
      if Linked(s, k, n) {
        var p :| p in ps && s.heap[p].key == n;
        var i :| 0 <= i < |ps| && ps[i] == p;
        assert ns[i] == n;
      }
      if n in ns {
        var i :| 0 <= i < |ns| && ns[i] == n;
        assert ps[i] in ps;
      }
    }
  }

  lemma RouteSummary(s: State, k: RibKey)
    requires RoutesOk(s) && k in s.rib
    ensures k in Abs(s) && Abs(s)[k].rtype == RtypeOf(s.res[s.rib[k]]) && |Abs(s)[k].paths| == |Paths(s, k)|
    ensures s.res[s.rib[k]].mpathMax == MaxPaths(Abs(s)[k].rtype)
  {
    assert ResOk(s.res[s.rib[k]], s.heap);
  }

  ghost predicate Refines(s: State, op: Op, st: Status, s': State)
    requires RoutesOk(s)
  {
    Core(s', {}) && Abs(s') == ANext(Abs(s), op, st) && ALegal(Abs(s), op, st)
  }

  lemma InsertRefines(s: State, k: RibKey, n: NhKey, t: RibType, st: Status, s': State)
    requires Core(s, {}) && InsertStep(s, k, n, t, st, s')
    ensures Refines(s, NhopInsert(k, n, t), st, s')
  {
    hide SlotsOk, TableOk, RefsOk, CountsOk, NeighBase, ResOk, Abs, AInsert, APresent, Present, CanInsert, Inserted;
    PresentAbs(s, k, n);
    if k in s.rib {
      RouteSummary(s, k);
    }
    assert k in Abs(s) <==> k in s.rib by { AbsKeys(s); }
    if st == Ok && !Present(s, k, n) {
      var p: Ptr, id: nat, nhOid: nat, neighOid: nat :|
        CanInsert(s, k, n, t, p, id) && s' == Inserted(s, k, n, t, p, id, nhOid, neighOid);
      InsertedCore(s, k, n, t, p, id, nhOid, neighOid);
      InsertedAbs(s, k, n, t, p, id, nhOid, neighOid);
    }
  }

  lemma AbsKeys(s: State)
    requires RoutesOk(s)
    ensures Abs(s).Keys == s.rib.Keys
  {
  }

  lemma DeleteRefines(s: State, k: RibKey, n: NhKey, t: RibType, st: Status, s': State)
    requires Core(s, {}) && DeleteStep(s, k, n, t, st, s')
    ensures Refines(s, NhopDelete(k, n, t), st, s')
  {
    hide SlotsOk, TableOk, RefsOk, CountsOk, NeighBase, ResOk, Abs, Linked, CanRemove, Removed;
    LinkedAbs(s, k, n);
    if k in s.rib {
      RouteSummary(s, k);
    }
    assert k in Abs(s) <==> k in s.rib by { AbsKeys(s); }
    if st == Ok && Linked(s, k, n) {
      var i: nat, id: nat :| CanRemove(s, k, i, id) && RemovesKey(s, k, i, n) && s' == Removed(s, k, i, id);
      RemovedCore(s, k, i, id);
      RemovedAbs(s, k, i, id);
      assert Abs(s)[k].paths[i] == n by { KeyAt(s, k, i); }
    }
  }

  lemma KeyAt(s: State, k: RibKey, i: nat)
    requires RoutesOk(s) && k in s.rib && i < |Paths(s, k)|
    ensures Paths(s, k)[i] in s.heap && Abs(s)[k].paths[i] == s.heap[Paths(s, k)[i]].key
  {
    assert ResOk(s.res[s.rib[k]], s.heap);
  }

  lemma StaticKeeps(n: NeighTable, v: Vrf, g: nat, mac: nat)
    ensures NeighStatic(n, v, g, mac).cnt == n.cnt
  {
  }

  lemma StaticAbs(s: State, v: Vrf, g: nat, mac: nat)
    requires Core(s, {})
    ensures var s' := s.(nb := NeighStatic(s.nb, v, g, mac)); Core(s', {}) && Abs(s') == Abs(s)
  {
    hide SlotsOk, TableOk, RefsOk, CountsOk, NeighBase, NeighStatic;
    StaticBase(s.nb, v, g, mac);
    StaticKeeps(s.nb, v, g, mac);
    NbCore(s, NeighStatic(s.nb, v, g, mac));
  }

  lemma ResetAbs(s: State, v: Vrf)
    requires Core(s, {}) && v in s.nb.cnt
    ensures var s' := s.(nb := NeighReset(s.nb, v)); Core(s', {}) && Abs(s') == Abs(s)
  {
    hide SlotsOk, TableOk, RefsOk, CountsOk, NeighBase, NeighReset;
    ResetCore(s, v);
  }

  /** Every step keeps the structural invariant and is a legal abstract step. */
  lemma StepRefines(s: State, op: Op, st: Status, s': State)
    requires Core(s, {}) && Step(s, op, st, s')
    ensures Refines(s, op, st, s')
  {
    hide SlotsOk, TableOk, RefsOk, CountsOk, NeighBase, ResOk, InsertStep, DeleteStep, Abs, Dropped, DropAll,
         NeighStatic, NeighReset;
    AbsKeys(s);
    match op
    case NhopInsert(k, n, t) => InsertRefines(s, k, n, t, st, s');
    case NhopDelete(k, n, t) => DeleteRefines(s, k, n, t, st, s');
    case RouteDelete(k) =>
      if k in s.rib {
        DroppedAbs(s, k);
      }
    case RouteCleanup(v) =>
      var ks: seq<RibKey> :| Lists(ks, s, v) && s' == DropAll(s, ks);
      DropAllAbs(s, ks);
      assert Elems(ks) == set k | k in Abs(s) && k.vrf == v;
    case NeighAddStatic(v, g, mac) => StaticAbs(s, v, g, mac);
    case VrfReset(v) => ResetAbs(s, v);
  }

  // ---------------------------------------------------------------------------------------------
  // Runs

  /** `ss` is a run of `ops` returning `sts`. Steps are specified from states that satisfy the structural
      invariant; nothing is assumed of any other state. */
  ghost predicate IsRun(vrfs: set<Vrf>, ss: seq<State>, ops: seq<Op>, sts: seq<Status>) {
    && |ss| == |ops| + 1 == |sts| + 1
    && ss[0] == Init(vrfs)
    && forall i | 0 <= i < |ops| :: Core(ss[i], {}) ==> Step(ss[i], ops[i], sts[i], ss[i + 1])
  }

  /** The abstract table after the first `n` operations. */
  ghost function ARun(ops: seq<Op>, sts: seq<Status>, n: nat): Table
    requires n <= |ops| == |sts|
  {
    if n == 0 then map[] else ANext(ARun(ops, sts, n - 1), ops[n - 1], sts[n - 1])
  }

  /** Every run refines the run of the abstract table on the same operations and statuses. */
  lemma {:induction false} RunRefines(vrfs: set<Vrf>, ss: seq<State>, ops: seq<Op>, sts: seq<Status>, n: nat)
    requires IsRun(vrfs, ss, ops, sts) && n <= |ops|
    ensures Core(ss[n], {}) && Abs(ss[n]) == ARun(ops, sts, n)
    ensures n < |ops| ==> ALegal(ARun(ops, sts, n), ops[n], sts[n])
  {
    hide SlotsOk, TableOk, RefsOk, CountsOk, NeighBase, RoutesOk, Step, ANext, Abs, ALegal;
    if n == 0 {
      InitCore(vrfs);
      assert Abs(ss[0]) == map[] by { AbsKeys(ss[0]); assert ss[0].rib == map[]; }
    } else {
      RunRefines(vrfs, ss, ops, sts, n - 1);
      StepRefines(ss[n - 1], ops[n - 1], sts[n - 1], ss[n]);
    }
    if n < |ops| {
      StepRefines(ss[n], ops[n], sts[n], ss[n + 1]);
    }
  }

  // ---------------------------------------------------------------------------------------------
  // The FIB in every run

  lemma StepSafe(s: State, op: Op, st: Status, s': State)
    requires Core(s, {}) && FibSafe(s) && Step(s, op, st, s')
    ensures FibSafe(s')
  {
    hide SlotsOk, TableOk, RefsOk, CountsOk, NeighBase, ResOk, FibSafe, Inserted, CanInsert, Removed, CanRemove,
         Present, Linked, Dropped, DropAll, NeighStatic, NeighReset;
    match op
    case NhopInsert(k, n, t) =>
      if s' != s {
        var p: Ptr, id: nat, nhOid: nat, neighOid: nat :|
          CanInsert(s, k, n, t, p, id) && s' == Inserted(s, k, n, t, p, id, nhOid, neighOid);
        InsertedSafe(s, k, n, t, p, id, nhOid, neighOid);
      }
    case NhopDelete(k, n, t) =>
      if s' != s {
        var i: nat, id: nat :| CanRemove(s, k, i, id) && RemovesKey(s, k, i, n) && s' == Removed(s, k, i, id);
        RemovedSafe(s, k, i, id);
      }
    case RouteDelete(k) =>
      if k in s.rib {
        WithdrawSafe(s, s', k);
      }
    case RouteCleanup(v) =>
      var ks: seq<RibKey> :| Lists(ks, s, v) && s' == DropAll(s, ks);
      DropAllSafe(s, ks);
    case NeighAddStatic(_, _, _) => SameSafe(s, s');
    case VrfReset(_) => SameSafe(s, s');
  }

  /** In every state of every run each FIB entry names the slot of a prefix, whatever prefixes clash. */
  lemma {:induction false} RunSafe(vrfs: set<Vrf>, ss: seq<State>, ops: seq<Op>, sts: seq<Status>, n: nat)
    requires IsRun(vrfs, ss, ops, sts) && n <= |ops|
    ensures Core(ss[n], {}) && FibSafe(ss[n])
  {
    hide Core, FibSafe, Step, Abs, ALegal, ANext;
    RunRefines(vrfs, ss, ops, sts, n);
    if n == 0 {
      InitTidy(vrfs, 0);
      OkIsSafe(ss[0]);
    } else {
      RunSafe(vrfs, ss, ops, sts, n - 1);
      StepSafe(ss[n - 1], ops[n - 1], sts[n - 1], ss[n]);
    }
  }

  // ---------------------------------------------------------------------------------------------
  // Runs in which RIB, FIB and neighbour table agree

  /** RIB and FIB agree, and every neighbour counts the live next hops of its VRF that resolve through it. The
      VRF only stands for the operation in progress; with none in progress any will do. */
  ghost predicate Tidy(s: State, v: Vrf) {
    Core(s, {}) && FibOk(s) && NeighOk(s, {}, v)
  }

  /** What keeps the tables tidy: the prefix of an insert that takes effect clashes with no other, its next hop
      is not live in another VRF, and a VRF that is added has no neighbours counted. */
  ghost predicate Respects(s: State, op: Op, s': State) {
    InRange(s) && match op
                  case NhopInsert(k, n, t) => s' != s ==> NoClash(s, k) && Mine(s, k.vrf, n)
                  case VrfReset(v) => v in s.nb.cnt && s.nb.cnt[v] == 0
                  case _ => true
  }

  lemma SameFib(s: State, s': State)
    requires FibOk(s) && s'.rib == s.rib && s'.fib == s.fib
    ensures FibOk(s')
  {
    hide ToFib;
  }

  lemma InsertTidy(s: State, k: RibKey, n: NhKey, t: RibType, st: Status, s': State, v: Vrf)
    requires Tidy(s, v) && InsertStep(s, k, n, t, st, s')
    ensures Core(s', {}) && (Tidy(s', v) <==> (s' != s ==> NoClash(s, k) && Mine(s, k.vrf, n)))
  {
    hide SlotsOk, TableOk, RefsOk, CountsOk, NeighBase, ResOk, FibOk, NeighOk, NoClash, Mine,
         CanInsert, Inserted, Present;
    if s' != s {
      var p: Ptr, id: nat, nhOid: nat, neighOid: nat :|
        CanInsert(s, k, n, t, p, id) && s' == Inserted(s, k, n, t, p, id, nhOid, neighOid);
      InsertedCore(s, k, n, t, p, id, nhOid, neighOid);
      InsertedFib(s, k, n, t, p, id, nhOid, neighOid);
      AnyVrf(s, v, k.vrf);
      InsertedNeigh(s, k, n, t, p, id, nhOid, neighOid);
      if NeighOk(s', {}, v) {
        AnyVrf(s', v, k.vrf);
      } else if NeighOk(s', {}, k.vrf) {
        AnyVrf(s', k.vrf, v);
      }
    }
  }

  lemma DeleteTidy(s: State, k: RibKey, n: NhKey, t: RibType, st: Status, s': State, v: Vrf)
    requires Tidy(s, v) && DeleteStep(s, k, n, t, st, s')
    ensures Tidy(s', v)
  {
    hide SlotsOk, TableOk, RefsOk, CountsOk, NeighBase, ResOk, FibOk, NeighOk, Linked, CanRemove, Removed;
    if s' != s {
      var i: nat, id: nat :| CanRemove(s, k, i, id) && RemovesKey(s, k, i, n) && s' == Removed(s, k, i, id);
      RemovedCore(s, k, i, id);
      RemovedFib(s, k, i, id);
      AnyVrf(s, v, k.vrf);
      RemovedNeigh(s, k, i, id);
      AnyVrf(s', k.vrf, v);
    }
  }

  lemma DropTidy(s: State, k: RibKey, v: Vrf)
    requires Tidy(s, v) && k in s.rib
    ensures Tidy(Dropped(s, k), v)
  {
    hide SlotsOk, TableOk, RefsOk, CountsOk, NeighBase, ResOk, FibOk, NeighOk, Dropped;
    DroppedFib(s, k);
    AnyVrf(s, v, k.vrf);
    DroppedNeigh(s, k);
    AnyVrf(Dropped(s, k), k.vrf, v);
  }

  lemma CleanupTidy(s: State, w: Vrf, s': State, v: Vrf)
    requires Tidy(s, v) && exists ks: seq<RibKey> :: Lists(ks, s, w) && s' == DropAll(s, ks)
    ensures Tidy(s', v)
  {
    hide SlotsOk, TableOk, RefsOk, CountsOk, NeighBase, ResOk, FibOk, NeighOk, DropAll;
    var ks: seq<RibKey> :| Lists(ks, s, w) && s' == DropAll(s, ks);
    DropAllFib(s, ks);
    AnyVrf(s, v, w);
    DropAllNeigh(s, w, ks);
    AnyVrf(s', w, v);
  }

  lemma StaticTidy(s: State, w: Vrf, g: nat, mac: nat, v: Vrf)
    requires Tidy(s, v)
    ensures Tidy(s.(nb := NeighStatic(s.nb, w, g, mac)), v)
  {
    hide SlotsOk, TableOk, RefsOk, CountsOk, NeighBase, ResOk, FibOk, NeighOk, NeighStatic, Abs;
    StaticAbs(s, w, g, mac);
    StaticNeigh(s, w, g, mac, v);
    SameFib(s, s.(nb := NeighStatic(s.nb, w, g, mac)));
  }

  lemma ResetTidy(s: State, w: Vrf, v: Vrf)
    requires Tidy(s, v) && w in s.nb.cnt
    ensures Tidy(s.(nb := NeighReset(s.nb, w)), v) <==> s.nb.cnt[w] == 0
  {
    hide SlotsOk, TableOk, RefsOk, CountsOk, NeighBase, ResOk, FibOk, NeighOk, NeighReset;
    ResetCore(s, w);
    ResetNeigh(s, w, v);
    SameFib(s, s.(nb := NeighReset(s.nb, w)));
  }

  /** A step keeps the tables tidy if and only if it respects them. */
  lemma StepTidy(s: State, op: Op, st: Status, s': State, v: Vrf)
    requires Tidy(s, v) && Step(s, op, st, s')
    ensures Tidy(s', v) <==> Respects(s, op, s')
  {
    hide SlotsOk, TableOk, RefsOk, CountsOk, NeighBase, ResOk, Tidy, NoClash, Mine,
         Dropped, DropAll, NeighStatic, NeighReset, InsertStep, DeleteStep, Lists;
    assert Core(s, {}) by { TidyCore(s, v); }
    match op
    case NhopInsert(k, n, t) => InsertTidy(s, k, n, t, st, s', v);
    case NhopDelete(k, n, t) => DeleteTidy(s, k, n, t, st, s', v);
    case RouteDelete(k) =>
      if k in s.rib {
        DropTidy(s, k, v);
      }
    case RouteCleanup(w) => CleanupTidy(s, w, s', v);
    case NeighAddStatic(w, g, mac) => StaticTidy(s, w, g, mac, v);
    case VrfReset(w) => ResetTidy(s, w, v);
  }

  lemma TidyCore(s: State, v: Vrf)
    requires Tidy(s, v)
    ensures Core(s, {})
  {
  }

  lemma InitTidy(vrfs: set<Vrf>, v: Vrf)
    ensures Tidy(Init(vrfs), v)
  {
    InitCore(vrfs);
    hide Core;
    var s := Init(vrfs);
    forall w <- s.nb.cnt ensures FastOf(s.nb, w) == {} {}
  }

  /** All states of a run are tidy if and only if all its steps respect the tables. */
  lemma {:induction false} RunTidy(vrfs: set<Vrf>, ss: seq<State>, ops: seq<Op>, sts: seq<Status>, n: nat, v: Vrf)
    requires IsRun(vrfs, ss, ops, sts) && n <= |ops|
    ensures (forall i | 0 <= i <= n :: Tidy(ss[i], v))
       <==> (forall i | 0 <= i < n :: Respects(ss[i], ops[i], ss[i + 1]))
  {
    hide Core, Tidy, Step, Respects;
    if n == 0 {
      InitTidy(vrfs, v);
    } else {
      RunTidy(vrfs, ss, ops, sts, n - 1, v);
      if forall i | 0 <= i <= n - 1 :: Tidy(ss[i], v) {
        TidyCore(ss[n - 1], v);
        StepTidy(ss[n - 1], ops[n - 1], sts[n - 1], ss[n], v);
      }
    }
  }

  // ---------------------------------------------------------------------------------------------
  // Runs by disciplined callers

  /** The caller uses canonical prefixes, and each next hop with a gateway from one VRF only; it adds a VRF only
      after all routes of its last life are gone, and made no entry static that a next hop had created there. */
  ghost predicate Disciplined(s: State, op: Op, owner: NhKey -> Vrf) {
    match op
    case NhopInsert(k, n, t) => Canonical(k) && (n.gateway != 0 ==> owner(n) == k.vrf)
    case VrfReset(v) => KeysOf(s.rib, v) == {} && NoneTakenOver(s.nb, v)
    case _ => true
  }

  ghost predicate Owned(a: Table, owner: NhKey -> Vrf) {
    forall k <- a :: Canonical(k) && forall n <- a[k].paths | n.gateway != 0 :: owner(n) == k.vrf
  }

  lemma OwnedNext(a: Table, s: State, op: Op, st: Status, owner: NhKey -> Vrf)
    requires Owned(a, owner) && Disciplined(s, op, owner)
    ensures Owned(ANext(a, op, st), owner)
  {
    hide Canonical, NhopEqual, NoneTakenOver;
    var a' := ANext(a, op, st);
    forall k <- a', n <- a'[k].paths | n.gateway != 0 ensures owner(n) == k.vrf {
      if op.NhopInsert? && op.k == k && n != op.n {
        assert k in a && n in a[k].paths;
      } else if op.NhopDelete? && op.k == k {
        assert n in a[k].paths;
      }
    }
  }

  lemma OwnedMine(s: State, k: RibKey, n: NhKey, owner: NhKey -> Vrf)
    requires RoutesOk(s) && TableOk(s) && Owned(Abs(s), owner) && Canonical(k) && (n.gateway != 0 ==> owner(n) == k.vrf)
    ensures NoClash(s, k) && Mine(s, k.vrf, n)
  {
    hide ToFib, Canonical, ResOk;
    AbsKeys(s);
    assert forall j <- s.rib :: j in Abs(s) && Canonical(j);
    CanonicalNoClash(s, k);
    if n.gateway != 0 && n in s.nhops {
      forall j <- s.rib | s.nhops[n] in Paths(s, j) ensures j.vrf == k.vrf {
        LinkedAbs(s, j, n);
      }
    }
  }

  /** Disciplined callers respect the tables. */
  lemma DisciplinedRespects(s: State, op: Op, st: Status, s': State, owner: NhKey -> Vrf, v: Vrf)
    requires Tidy(s, v) && Step(s, op, st, s') && Owned(Abs(s), owner) && Disciplined(s, op, owner)
    ensures Respects(s, op, s')
  {
    hide SlotsOk, RefsOk, CountsOk, ResOk, FibOk, NeighOk, Abs, Owned, Canonical, NoClash, Mine, NoneTakenOver,
         InsertStep, DeleteStep, Dropped, DropAll, NeighStatic, NeighReset, KeysOf, TableOk, NeighBase;
    match op
    case NhopInsert(k, n, t) => OwnedMine(s, k, n, owner);
    case VrfReset(w) =>
      AnyVrf(s, v, w);
      EmptyVrfCount(s, w);
    case _ =>
  }

  /** In every state of a run by disciplined callers the tables are tidy. */
  lemma {:induction false} DisciplinedTidy(
    vrfs: set<Vrf>, ss: seq<State>, ops: seq<Op>, sts: seq<Status>, owner: NhKey -> Vrf, n: nat, v: Vrf)
    requires IsRun(vrfs, ss, ops, sts) && n <= |ops|
    requires forall i | 0 <= i < |ops| :: Disciplined(ss[i], ops[i], owner)
    ensures Tidy(ss[n], v) && RoutesOk(ss[n]) && Owned(Abs(ss[n]), owner)
  {
    hide SlotsOk, TableOk, RefsOk, CountsOk, NeighBase, RoutesOk, Abs, Owned, Tidy, Respects, Step, ANext, ALegal,
         Disciplined;
    RunRefines(vrfs, ss, ops, sts, n);
    if n == 0 {
      InitTidy(vrfs, v);
      OwnedEmpty(owner);
    } else {
      DisciplinedTidy(vrfs, ss, ops, sts, owner, n - 1, v);
      RunRefines(vrfs, ss, ops, sts, n - 1);
      DisciplinedRespects(ss[n - 1], ops[n - 1], sts[n - 1], ss[n], owner, v);
      StepTidy(ss[n - 1], ops[n - 1], sts[n - 1], ss[n], v);
      OwnedNext(ARun(ops, sts, n - 1), ss[n - 1], ops[n - 1], sts[n - 1], owner);
    }
  }

  lemma OwnedEmpty(owner: NhKey -> Vrf)
    ensures Owned(map[], owner)
  {
  }
}
