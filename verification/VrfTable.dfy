/** The table of VRFs: a fixed array of named slots whose ids are their positions plus one. */
module VrfTable {
  import opened Sequences
  import opened RouteState
  import opened RouteInv
  import opened RouteOps
  import opened RouteFib
  import opened RouteReset
  import opened RouteRuns
  import opened RouteFacts
  import opened RouteAgent

  const NTB_NR_VRF: nat := 4096
  const NTB_VRF_NAME_LEN: nat := 64

  datatype Slot = Slot(name: string, valid: bool)

  ghost function ValidSlots(ss: seq<Slot>): set<nat> {
    set i: nat | i < |ss| && ss[i].valid
  }

  /** No two valid slots have the same name. */
  ghost predicate NamesDistinct(ss: seq<Slot>) {
    forall i, j | 0 <= i < j < |ss| && ss[i].valid && ss[j].valid :: ss[i].name != ss[j].name
  }

  ghost predicate Named(ss: seq<Slot>, name: string, i: int) {
    0 <= i < |ss| && ss[i].valid && ss[i].name == name
  }

  ghost function Position(ss: seq<Slot>, name: string): nat
    requires exists i :: Named(ss, name, i)
  {
    var i: nat :| Named(ss, name, i);
    i
  }

  ghost function Names(ss: seq<Slot>): set<string> {
    set i: nat | i < |ss| && ss[i].valid :: ss[i].name
  }

  lemma NameOf(ss: seq<Slot>, name: string)
    ensures name in Names(ss) <==> exists i :: Named(ss, name, i)
  {
    if name in Names(ss) {
      var i: nat :| i < |ss| && ss[i].valid && ss[i].name == name;
      assert Named(ss, name, i);
    }
  }

  /** The ids of the VRFs by name. */
  ghost function Ids(ss: seq<Slot>): map<string, Vrf> {
    map name | name in Names(ss) :: NameOf(ss, name); Position(ss, name) + 1
  }

  lemma IdsOf(ss: seq<Slot>, name: string)
    requires NamesDistinct(ss)
    ensures name in Ids(ss) <==> exists i :: Named(ss, name, i)
    ensures forall i | Named(ss, name, i) :: name in Ids(ss) && Ids(ss)[name] == i + 1
  {
    NameOf(ss, name);
    hide Names;
    forall i | Named(ss, name, i) ensures name in Ids(ss) && Ids(ss)[name] == i + 1 {
      assert Named(ss, name, Position(ss, name));
    }
  }

  /** The ids from 1 to `n`. */
  function IdsUpTo(n: nat): (r: set<Vrf>)
    ensures forall v: Vrf :: v in r <==> 1 <= v <= n
  {
    if n == 0 then {} else IdsUpTo(n - 1) + {n}
  }

  lemma AddIds(ss: seq<Slot>, j: nat, name: string)
    requires NamesDistinct(ss) && j < |ss| && !ss[j].valid && name !in Ids(ss)
    ensures var ss' := ss[j := Slot(name, true)];
            && NamesDistinct(ss') && Ids(ss') == Ids(ss)[name := j + 1]
            && |ValidSlots(ss')| == |ValidSlots(ss)| + 1
  {
    hide Ids;
    var ss' := ss[j := Slot(name, true)];
    forall i: nat | i < |ss| && ss[i].valid ensures ss[i].name != name {
      IdsOf(ss, name);
      assert !Named(ss, name, i);
    }
    assert NamesDistinct(ss');
    forall m: string ensures m in Ids(ss') <==> m == name || m in Ids(ss)
      ensures m in Ids(ss') ==> Ids(ss')[m] == if m == name then j + 1 else Ids(ss)[m]
    {
      IdsOf(ss, m);
      IdsOf(ss', m);
      assert forall i | i != j :: Named(ss', m, i) <==> Named(ss, m, i);
      assert Named(ss', name, j);
    }
    assert ValidSlots(ss') == ValidSlots(ss) + {j};
  }

  lemma DelIds(ss: seq<Slot>, j: nat)
    requires NamesDistinct(ss) && j < |ss| && ss[j].valid
    ensures var ss' := ss[j := Slot("", false)];
            && NamesDistinct(ss') && Ids(ss') == Ids(ss) - {ss[j].name}
            && |ValidSlots(ss')| == |ValidSlots(ss)| - 1
  {
    hide Ids;
    var ss' := ss[j := Slot("", false)];
    forall m: string ensures m in Ids(ss') <==> m != ss[j].name && m in Ids(ss)
      ensures m in Ids(ss') ==> Ids(ss')[m] == Ids(ss)[m]
    {
      IdsOf(ss, m);
      IdsOf(ss', m);
      assert forall i | i != j :: Named(ss', m, i) <==> Named(ss, m, i);
      assert Named(ss, ss[j].name, j);
    }
    assert ValidSlots(ss') == ValidSlots(ss) - {j};
  }

  lemma NoSlots(ss: seq<Slot>)
    requires forall i | 0 <= i < |ss| :: !ss[i].valid
    ensures NamesDistinct(ss) && Ids(ss) == map[] && ValidSlots(ss) == {}
  {
    assert Names(ss) == {};
  }

  class VrfTable {
    const slots: array<Slot>
    var count: int
    const agent: Agent

    ghost predicate Valid()
      reads this, slots, agent, agent.cells
    {
      && slots.Length == NTB_NR_VRF
      && NamesDistinct(slots[..])
      && count == |ValidSlots(slots[..])|
      && agent.Valid()
      && (forall v: Vrf | 1 <= v <= NTB_NR_VRF :: v in agent.ribCnt && v in agent.neighCnt)
    }

    /** `ntb_vrf_init`: no VRF is valid, and all ids are known to the route tables. */
    constructor ()
      ensures Valid() && Ids(slots[..]) == map[] && count == 0
      ensures agent.S() == Init(IdsUpTo(NTB_NR_VRF))
      ensures fresh(slots) && fresh(agent) && fresh(agent.cells)
    {
      hide Core, FibSafe, IdsUpTo, Ids;
      slots := new Slot[NTB_NR_VRF](_ => Slot("", false));
      count := 0;
      var a := new Agent(IdsUpTo(NTB_NR_VRF));
      agent := a;
      new;
      NoSlots(slots[..]);
    }

    /** The position of a name, or a negative number. */
    method Find(name: string) returns (i: int)
      requires Valid()
      ensures i >= 0 ==> Named(slots[..], name, i) && Ids(slots[..])[name] == i + 1
      ensures i >= 0 <==> name in Ids(slots[..])
    {
      i := 0;
      while i < slots.Length
        invariant 0 <= i <= slots.Length
        invariant forall j | 0 <= j < i :: !Named(slots[..], name, j)
      {
        if slots[i].valid && slots[i].name == name {
          assert Named(slots[..], name, i);
          IdsOf(slots[..], name);
          return;
        }
        i := i + 1;
      }
      IdsOf(slots[..], name);
      return -1;
    }

    /** Scans the whole array for the name, noting the first free slot. */
    method Scan(name: string) returns (found: bool, free: int)
      requires Valid()
      ensures found <==> name in Ids(slots[..])
      ensures !found && free < 0 ==> forall i | 0 <= i < NTB_NR_VRF :: slots[i].valid
      ensures !found && free >= 0 ==>
                free < NTB_NR_VRF && !slots[free].valid && forall i | 0 <= i < free :: slots[i].valid
    {
      found, free := false, -1;
      var i := 0;
      while i < slots.Length
        invariant 0 <= i <= slots.Length
        invariant forall j | 0 <= j < i :: !Named(slots[..], name, j)
        invariant -1 <= free < i
        invariant free < 0 ==> forall j | 0 <= j < i :: slots[j].valid
        invariant free >= 0 ==> !slots[free].valid && forall j | 0 <= j < free :: slots[j].valid
      {
        if slots[i].valid {
          if slots[i].name == name {
            assert Named(slots[..], name, i);
            IdsOf(slots[..], name);
            return true, free;
          }
        } else if free == -1 {
          free := i;
        }
        i := i + 1;
      }
      IdsOf(slots[..], name);
    }

    /** Adds a VRF under a name that fits the name field, at the lowest free slot, and resets the neighbour
        counter of its id. Adding a name twice changes nothing, and the add fails only if all slots are taken. */
    method Add(name: string) returns (ok: bool)
      requires Valid() && |name| < NTB_VRF_NAME_LEN
      modifies this`count, slots, agent`neighCnt
      ensures Valid()
      ensures ok <==> name in old(Ids(slots[..])) || exists i | 0 <= i < 4096 :: !old(slots[i].valid)
      ensures !ok || name in old(Ids(slots[..])) ==> slots[..] == old(slots[..]) && agent.S() == old(agent.S())
      ensures ok && name !in old(Ids(slots[..])) ==>
                exists j: nat | j < NTB_NR_VRF ::
                  && !old(slots[j].valid) && (forall i | 0 <= i < j :: old(slots[i].valid))
                  && Ids(slots[..]) == old(Ids(slots[..]))[name := j + 1] && j + 1 in old(agent.neighCnt)
                  && agent.S() == old(agent.S()).(nb := NeighReset(old(agent.S()).nb, j + 1))
                  && Step(old(agent.S()), VrfReset(j + 1), Ok, agent.S())
    {
      hide Core, FibSafe, Ids;
      var found, free := Scan(name);
      if found {
        return true;
      }
      if free < 0 {
        return false;
      }
      AddIds(slots[..], free, name);
      agent.ResetVrf(free + 1);
      slots[free] := Slot(name, true);
      assert slots[..] == old(slots[..])[free := Slot(name, true)];
      count := count + 1;
      ok := true;
    }

    /** Deletes a VRF with all its routes; deleting an unknown name changes nothing. */
    method Del(name: string)
      requires Valid()
      modifies this`count, slots, agent, agent.cells
      ensures Valid() && Ids(slots[..]) == old(Ids(slots[..])) - {name}
      ensures name !in old(Ids(slots[..])) ==> agent.S() == old(agent.S())
      ensures name in old(Ids(slots[..])) ==>
                Step(old(agent.S()), RouteCleanup(old(Ids(slots[..])[name])), Ok, agent.S())
    {
      hide Core, FibSafe, Step;
      var i := Find(name);
      if i < 0 {
        return;
      }
      DelIds(slots[..], i);
      hide Ids;
      ghost var s0 := agent.S();
      var st := agent.CleanupRoutes(i + 1);
      CleanupVrfs(s0, i + 1, st, agent.S());
      slots[i] := Slot("", false);
      assert slots[..] == old(slots[..])[i := Slot("", false)];
      count := count - 1;
    }
  }

  lemma CleanupVrfs(s: State, v: Vrf, st: Status, s': State)
    requires Core(s, {}) && Step(s, RouteCleanup(v), st, s') && Core(s', {})
    ensures st == Ok && s'.ribCnt.Keys == s.ribCnt.Keys && s'.nb.cnt.Keys == s.nb.cnt.Keys
  {
    hide SlotsOk, RoutesOk, TableOk, RefsOk, NeighBase, DropAll;
    var ks: seq<RibKey> :| Lists(ks, s, v) && s' == DropAll(s, ks);
    DropAllCnt(s, ks);
  }
}
