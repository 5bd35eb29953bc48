/** The controller of the entry time-to-live: the balance call of the route table. */
module Ttl {

  const U32: nat := 0x1_0000_0000
  const U64: nat := 0x1_0000_0000_0000_0000
  const TABLE_SIZE: nat := 65536
  const INITIAL_TTL: nat := 5000

  /** `entry_ttl` and the `aged_replace` latch. */
  datatype Ctl = Ctl(ttl: nat, latched: bool)

  const INITIAL: Ctl := Ctl(INITIAL_TTL, false)

  /** The share of the table in use is above 0.85. */
  predicate Crowded(inTable: nat) {
    inTable as real / 65536.0 > 0.85
  }

  /** The free and aged entries, in the 32-bit unsigned arithmetic of the call, are under 0.15 of the table. */
  predicate Scarce(inTable: nat, aged: nat) {
    ((TABLE_SIZE - inTable + aged) % U32) as real / 65536.0 < 0.15
  }

  function Balanced(c: Ctl, inTable: nat, aged: nat): Ctl {
    var latched := c.latched || Crowded(inTable);
    var ttl :=
      if !latched then c.ttl
      else if Scarce(inTable, aged) then (if c.ttl > 60 then c.ttl - 5 else c.ttl)
      else (c.ttl + 1) % U64;
    Ctl(ttl, latched)
  }

  class Controller {
    var entryTtl: nat
    var agedReplace: bool

    ghost function View(): Ctl
      reads this
    {
      Ctl(entryTtl, agedReplace)
    }

    constructor ()
      ensures View() == INITIAL
    {
      entryTtl, agedReplace := INITIAL_TTL, false;
    }

    method Balance(inTable: nat, aged: nat)
      modifies this
      ensures View() == Balanced(old(View()), inTable, aged)
    {
      if inTable as real / 65536.0 > 0.85 {
        agedReplace := true;
      }
      var available := ((TABLE_SIZE - inTable + aged) % U32) as real / 65536.0;
      if agedReplace {
        if available < 0.15 {
          if entryTtl > 60 {
            entryTtl := entryTtl - 5;
          }
        } else {
          entryTtl := (entryTtl + 1) % U64;
        }
      }
    }
  }

  // ---------------------------------------------------------------------------------------------
  // Sequences of calls

  datatype Call = Call(inTable: nat, aged: nat)

  function BalanceAll(c: Ctl, calls: seq<Call>): Ctl {
    if calls == [] then c
    else
      var d := BalanceAll(c, calls[..|calls| - 1]);
      Balanced(d, calls[|calls| - 1].inTable, calls[|calls| - 1].aged)
  }

  /** The sum of free and aged entries passes 32 bits and wraps to less than 0.15 of the table. */
  predicate Wraps(inTable: nat, aged: nat) {
    U32 <= TABLE_SIZE - inTable + aged <= U32 + 9830
  }

  lemma Shares(inTable: nat, x: int)
    ensures Crowded(inTable) <==> inTable > 55705
    ensures x as real / 65536.0 < 0.15 <==> x <= 9830
  {
    assert inTable as real / 65536.0 > 0.85 <==> inTable as real > 55705.6;
    assert x as real / 65536.0 < 0.15 <==> x as real < 9830.4;
  }

  /** What the two comparisons mean in entries: more than 55705 in the table, and at most 9830 free or aged, where
      a sum that passes 32 bits wraps. */
  lemma SharesInEntries(inTable: nat, aged: nat)
    requires inTable < 0x1_0000_0000 && aged < 0x1_0000_0000
    ensures Crowded(inTable) <==> inTable > 55705
    ensures Scarce(inTable, aged) <==> 0 <= 65536 - inTable + aged <= 9830 || Wraps(inTable, aged)
  {
    var free := TABLE_SIZE - inTable + aged;
    Shares(inTable, free % U32);
    if free < 0 {
      assert free % U32 == free + U32;
    } else if free < U32 {
      assert free % U32 == free;
    } else {
      assert free % U32 == free - U32;
    }
  }

  /** The latch is set if and only if some call found the table crowded. */
  lemma {:induction false} LatchedExactly(calls: seq<Call>)
    ensures BalanceAll(INITIAL, calls).latched <==> exists x <- calls :: x.inTable > 55705
    decreases |calls|
  {
    if calls != [] {
      var init, x := calls[..|calls| - 1], calls[|calls| - 1];
      LatchedExactly(init);
      Shares(x.inTable, 0);
      assert x in calls;
      if y :| y in calls && y.inTable > 55705 && y != x {
        assert y in init;
      }
    }
  }

  /** For 32-bit counters, a call that sees scarcity finds the latch set, or sets it itself, if and only if the
      latch was set, or the table is crowded, or the sum does not wrap into the scarce range. */
  lemma ScarceIsLatched(c: Ctl, inTable: nat, aged: nat)
    requires inTable < U32 && aged < U32
    ensures (Scarce(inTable, aged) ==> Balanced(c, inTable, aged).latched)
       <==> c.latched || inTable > 55705 || !Wraps(inTable, aged)
  {
    SharesInEntries(inTable, aged);
  }

  /** In particular it does as long as the count of aged entries leaves room for the table size in 32 bits. */
  lemma ScarceOfTable(c: Ctl, inTable: nat, aged: nat)
    requires inTable < U32 && aged < U32 - TABLE_SIZE
    ensures Scarce(inTable, aged) ==> Balanced(c, inTable, aged).latched
  {
    ScarceIsLatched(c, inTable, aged);
  }

  /** The sum can wrap: an empty table is then taken for a full one. */
  lemma ScarceUnlatched()
    ensures Scarce(0, U32 - TABLE_SIZE) && !Balanced(INITIAL, 0, U32 - TABLE_SIZE).latched
  {
  }

  /** The latch never resets. */
  lemma {:induction false} LatchStays(c: Ctl, calls: seq<Call>, n: nat)
    requires n <= |calls| && BalanceAll(c, calls[..n]).latched
    ensures BalanceAll(c, calls).latched
    decreases |calls|
  {
    if n < |calls| {
      assert calls[..|calls| - 1][..n] == calls[..n];
      LatchStays(c, calls[..|calls| - 1], n);
    } else {
      assert calls[..n] == calls;
    }
  }

  /** The call raises a time-to-live that has no larger value in 64 bits. */
  predicate Tops(c: Ctl, x: Call) {
    c.ttl == U64 - 1 && Balanced(c, x.inTable, x.aged).latched && !Scarce(x.inTable, x.aged)
  }

  /** No call of the sequence does. */
  ghost predicate NeverTops(calls: seq<Call>) {
    forall i | 0 <= i < |calls| :: !Tops(BalanceAll(INITIAL, calls[..i]), calls[i])
  }

  ghost predicate FloorKept(calls: seq<Call>) {
    forall i | 0 <= i <= |calls| :: BalanceAll(INITIAL, calls[..i]).ttl >= 56
  }

  lemma FloorNow(calls: seq<Call>)
    requires FloorKept(calls)
    ensures BalanceAll(INITIAL, calls).ttl >= 56
  {
    assert calls[..|calls|] == calls;
  }

  lemma InitTops(calls: seq<Call>)
    requires calls != []
    ensures var init := calls[..|calls| - 1];
            && (NeverTops(calls) <==> NeverTops(init) && !Tops(BalanceAll(INITIAL, init), calls[|calls| - 1]))
            && (FloorKept(calls) <==> FloorKept(init) && BalanceAll(INITIAL, calls).ttl >= 56)
  {
    hide Tops, BalanceAll;
    var init := calls[..|calls| - 1];
    assert forall i | 0 <= i <= |init| :: init[..i] == calls[..i];
    assert calls[..|calls|] == calls;
    if NeverTops(calls) {
      assert forall i | 0 <= i < |init| :: !Tops(BalanceAll(INITIAL, init[..i]), init[i]);
    }
    if FloorKept(calls) {
      assert forall i | 0 <= i <= |init| :: BalanceAll(INITIAL, init[..i]).ttl >= 56;
    }
    if FloorKept(init) && BalanceAll(INITIAL, calls).ttl >= 56 {
      forall i | 0 <= i <= |calls| ensures BalanceAll(INITIAL, calls[..i]).ttl >= 56 {
        if i <= |init| {
          assert init[..i] == calls[..i];
        }
      }
    }
  }

  /** One call from a time-to-live of at least 56. */
  lemma StepFloor(c: Ctl, x: Call)
    requires 56 <= c.ttl < U64
    ensures var d := Balanced(c, x.inTable, x.aged);
            && (d.ttl >= 56 <==> !Tops(c, x))
            && d.ttl <= c.ttl + 1
  {
    hide Crowded, Scarce;
  }

  lemma StepUnlatched(c: Ctl, x: Call)
    requires c.ttl < U64 && (!c.latched ==> c.ttl == INITIAL_TTL)
    ensures var d := Balanced(c, x.inTable, x.aged); d.ttl < U64 && (!d.latched ==> d.ttl == INITIAL_TTL)
  {
    hide Crowded, Scarce;
  }

  lemma NoCalls()
    ensures FloorKept([]) && NeverTops([]) && BalanceAll(INITIAL, []) == INITIAL
  {
  }

  /** From the initial state the time-to-live is 5000 until the latch is set; it stays at least 56 over all calls
      if and only if no call takes it past 64 bits. */
  lemma {:induction false} TtlFloor(calls: seq<Call>)
    ensures FloorKept(calls) <==> NeverTops(calls)
    ensures var c := BalanceAll(INITIAL, calls); c.ttl < U64 && (!c.latched ==> c.ttl == 5000)
    decreases |calls|
  {
    hide Balanced, Tops, FloorKept, NeverTops;
    if calls == [] {
      NoCalls();
    } else {
      var init, x := calls[..|calls| - 1], calls[|calls| - 1];
      var c := BalanceAll(INITIAL, init);
      TtlFloor(init);
      InitTops(calls);
      StepUnlatched(c, x);
      if FloorKept(init) {
        FloorNow(init);
        StepFloor(c, x);
      }
    }
  }

  /** Which takes more calls than a 64-bit number can hold less the initial value. */
  lemma {:induction false} ShortNeverTops(calls: seq<Call>)
    requires 5000 + |calls| < 0x1_0000_0000_0000_0000
    ensures NeverTops(calls) && BalanceAll(INITIAL, calls).ttl <= 5000 + |calls|
    decreases |calls|
  {
    hide Balanced, FloorKept, NeverTops;
    if calls == [] {
      NoCalls();
    } else {
      var init := calls[..|calls| - 1];
      ShortNeverTops(init);
      InitTops(calls);
      TtlFloor(init);
      FloorNow(init);
      StepFloor(BalanceAll(INITIAL, init), calls[|calls| - 1]);
    }
  }

  /** Plenty in a crowded table, for long enough, takes the time-to-live to zero. */
  lemma TtlWraps()
    ensures BalanceAll(INITIAL, seq(0x1_0000_0000_0000_0000 - 5000, _ => Call(60000, 60000))).ttl == 0
  {
    var x := Call(60000, 60000);
    var calls := seq(U64 - INITIAL_TTL, _ => x);
    var init := calls[..|calls| - 1];
    assert !Scarce(60000, 60000) && Crowded(60000);
    Plenty(|init|);
    assert init == seq(|init|, _ => x);
  }

  lemma {:induction false} Plenty(n: nat)
    requires INITIAL_TTL + n < U64
    ensures BalanceAll(INITIAL, seq(n, _ => Call(60000, 60000))).ttl == INITIAL_TTL + n
  {
    if n > 0 {
      var calls := seq(n, _ => Call(60000, 60000));
      assert !Scarce(60000, 60000) && Crowded(60000);
      Plenty(n - 1);
      assert calls[..n - 1] == seq(n - 1, _ => Call(60000, 60000));
    }
  }

  /** The calls needed to come from `t` down to 60 or less in steps of five. */
  function CallsToFloor(t: nat): nat {
    if t <= 60 then 0 else (t - 60 + 4) / 5
  }

  ghost predicate AllScarce(calls: seq<Call>) {
    forall x <- calls :: x.inTable < U32 && x.aged < U32 && Scarce(x.inTable, x.aged)
  }

  /** Sustained scarcity lowers the time-to-live by five a call until it is in 56..60, and keeps it there, once
      the latch is set; the first call sets it unless its sum wraps. */
  lemma {:induction false} Converges(c: Ctl, calls: seq<Call>)
    requires AllScarce(calls) && c.ttl >= 56
    requires calls != [] ==> c.latched || calls[0].inTable > 55705 || !Wraps(calls[0].inTable, calls[0].aged)
    ensures var r := BalanceAll(c, calls);
            && (calls != [] ==> r.latched)
            && if |calls| < CallsToFloor(c.ttl) then r.ttl == c.ttl - 5 * |calls| && r.ttl > 60
               else 56 <= r.ttl <= 60 && r.ttl == c.ttl - 5 * CallsToFloor(c.ttl)
    decreases |calls|
  {
    if calls != [] {
      var init, x := calls[..|calls| - 1], calls[|calls| - 1];
      Converges(c, init);
      assert x in calls;
      ScarceIsLatched(BalanceAll(c, init), x.inTable, x.aged);
    }
  }

  /** Once latched, plenty raises the time-to-live by one a call, and lowers nothing. */
  lemma {:induction false} Recovers(c: Ctl, calls: seq<Call>)
    requires c.latched && c.ttl + |calls| < U64
    requires forall x <- calls :: !Scarce(x.inTable, x.aged)
    ensures BalanceAll(c, calls) == Ctl(c.ttl + |calls|, true)
    decreases |calls|
  {
    if calls != [] {
      assert calls[|calls| - 1] in calls;
      Recovers(c, calls[..|calls| - 1]);
    }
  }
}
