/** The pipeline's ingress control and the driver's callbacks on mutable state. Each call appends its atomic
    steps to the ghost run, so the theorems about runs speak of every sequence of calls. */
module OffloadDriver {
  import opened Sequences
  import opened Sketch
  import opened Ttl
  import opened Offload

  lemma Extend(hs: Hashes, run: seq<Event>, e: Event)
    requires IsRun(hs, run) && Enabled(After(hs, run), e)
    ensures IsRun(hs, run + [e]) && After(hs, run + [e]) == Next(hs, After(hs, run), e)
  {
    var es := run + [e];
    assert es[..|es| - 1] == run;
    hide Next, Enabled;
    forall i | 0 <= i < |es| ensures Enabled(After(hs, es[..i]), es[i]) {
      if i < |run| {
        assert es[..i] == run[..i];
      }
    }
  }

  /** A batch of the learn callback: one attempt to add per digest, each success followed by a balance call. */
  ghost predicate LearnBatch(es: seq<Event>, n: nat)
    decreases |es|
  {
    if n == 0 then es == []
    else
      && es != []
      && if es[|es| - 1].Balance? then
           |es| >= 2 && IsAdd(es[|es| - 2], true) && LearnBatch(es[..|es| - 2], n - 1)
         else
           IsAdd(es[|es| - 1], false) && LearnBatch(es[..|es| - 1], n - 1)
  }

  /** The next hop that the learn callback gives to every key. */
  const LEARNED_NHOP: nat := 1

  ghost predicate IsAdd(e: Event, ok: bool) {
    e == Learn(0, ok, LEARNED_NHOP)
  }

  /** The batch has a digest of key `k` that was added. */
  ghost predicate Learns(q: seq<Key>, oks: seq<bool>, k: Key) {
    exists j :: 0 <= j < |oks| && j < |q| && oks[j] && q[j] == k
  }

  lemma LearnsMore(q: seq<Key>, oks: seq<bool>, ok: bool, k: Key)
    requires |oks| < |q|
    ensures Learns(q, oks + [ok], k) <==> Learns(q, oks, k) || (ok && k == q[|oks|])
  {
    var more := oks + [ok];
    assert forall j | 0 <= j < |oks| :: more[j] == oks[j];
    if ok && k == q[|oks|] {
      assert more[|oks|];
    }
    if Learns(q, oks, k) {
      var j :| 0 <= j < |oks| && j < |q| && oks[j] && q[j] == k;
      assert more[j];
    }
  }

  lemma RefusedToo(es: seq<Event>, n: nat, e: Event)
    requires LearnBatch(es, n) && IsAdd(e, false)
    ensures LearnBatch(es + [e], n + 1)
  {
    var fs := es + [e];
    assert fs[..|fs| - 1] == es;
  }

  lemma AddedToo(es: seq<Event>, n: nat, e: Event, b: Event)
    requires LearnBatch(es, n) && IsAdd(e, true) && b.Balance?
    ensures LearnBatch(es + [e] + [b], n + 1)
  {
    var fs := es + [e] + [b];
    assert fs[..|fs| - 2] == es;
  }

  class Switch {
    const hs: Hashes
    const regs: Registers
    const ctl: Controller
    var table: map<Key, Entry>
    var queue: seq<Key>
    var totalInsert: nat
    var totalAged: nat
    ghost var run: seq<Event>

    ghost function View(): State
      reads this, regs, ctl
    {
      State(regs.trace, table, queue, totalInsert, totalAged, ctl.View())
    }

    ghost predicate Valid()
      reads this, regs, regs.fp, regs.count, ctl
    {
      regs.Valid() && IsRun(hs, run) && View() == After(hs, run)
    }

    constructor (hs: Hashes)
      ensures Valid() && run == [] && this.hs == hs
      ensures fresh(regs) && fresh(regs.fp) && fresh(regs.count) && fresh(ctl)
    {
      this.hs := hs;
      var r := new Registers();
      var c := new Controller();
      regs, ctl := r, c;
      table, queue, totalInsert, totalAged := map[], [], 0, 0;
      run := [];
    }

    /** The ingress control on one packet: returns whether a digest is sent. */
    method Ingress(key: Key, cuckoo: Option<Cuckoo>) returns (digest: bool)
      requires Valid()
      modifies this`queue, this`run, regs, regs.fp, regs.count
      ensures Valid() && run == old(run) + [Packet(key, cuckoo)]
      ensures digest <==> Digests(hs, old(View()), key, cuckoo)
      ensures digest ==> key !in table
    {
      hide After, IsRun, History, RunLen, Balanced;
      ghost var s := View();
      var hit := key in table;
      var tmp := hs.index(key);
      var index := 0;
      match cuckoo {
        case Some(c) =>
          if hit {
            index := table[key].nhop;
          } else {
            var choice := tmp % 4;
            index := if choice == 0 then c.h1 else if choice == 1 then c.h2 else if choice == 2 then c.h3 else c.h4;
          }
        case None =>
          index := tmp % 0x4000;
      }
      assert index == Index(hs, table, key, cuckoo);
      var eflag := regs.Apply(index, hs.fingerprint(key));
      hide Index;
      digest := eflag && !hit;
      if digest {
        queue := queue + [key];
      }
      assert View() == Next(hs, s, Packet(key, cuckoo));
      Extend(hs, run, Packet(key, cuckoo));
      run := run + [Packet(key, cuckoo)];
    }

    /** The balance call, with the driver's two counters as the driver has them at that time. */
    method BalanceTtl(inTable: nat, aged: nat)
      requires Valid()
      modifies this`run, ctl
      ensures Valid() && run == old(run) + [Balance(inTable, aged)]
    {
      hide After, IsRun, Digests, TouchOf, Balanced;
      Extend(hs, run, Balance(inTable, aged));
      ctl.Balance(inTable, aged);
      run := run + [Balance(inTable, aged)];
    }

    /** Takes the digest at the head of the queue and tries to add its key. */
    method AddEntry() returns (ok: bool)
      requires Valid() && queue != []
      modifies this`table, this`queue, this`totalInsert, this`run
      ensures Valid() && queue == old(queue)[1..] && run == old(run) + [Learn(0, ok, LEARNED_NHOP)]
      ensures table == if ok then old(table)[old(queue)[0] := Entry(1, ctl.entryTtl, false)] else old(table)
    {
      hide After, IsRun, Digests, TouchOf, Balanced;
      ok := *;
      var nhop := LEARNED_NHOP;
      ghost var s := View();
      Extend(hs, run, Learn(0, ok, nhop));
      var key := queue[0];
      queue := queue[1..];
      if ok {
        table := table[key := Entry(nhop, ctl.entryTtl, false)];
        totalInsert := Wrap32(totalInsert + 1);
      }
      assert View() == Next(hs, s, Learn(0, ok, nhop));
      run := run + [Learn(0, ok, nhop)];
    }

    /** The learn callback on a batch of `n` digests: which of them it added. */
    method LearnCallback(n: nat) returns (oks: seq<bool>, ghost es: seq<Event>)
      requires Valid() && n <= |queue|
      modifies this`table, this`queue, this`totalInsert, this`run, ctl
      ensures Valid() && run == old(run) + es && LearnBatch(es, n) && queue == old(queue)[n..] && |oks| == n
      ensures forall k :: k in table <==> k in old(table) || Learns(old(queue), oks, k)
      ensures forall k <- table :: if Learns(old(queue), oks, k) then table[k].nhop == 1 && !table[k].aged
                                                                 else table[k] == old(table)[k]
    {
      hide After, IsRun, View;
      es, oks := [], [];
      assert LearnBatch(es, 0);
      hide LearnBatch;
      ghost var q := queue;
      var i := 0;
      while i < n
        invariant 0 <= i <= n && Valid() && |oks| == i
        invariant run == old(run) + es && LearnBatch(es, i) && queue == q[i..]
        invariant forall k :: k in table <==> k in old(table) || Learns(q, oks, k)
        invariant forall k <- table :: if Learns(q, oks, k) then table[k].nhop == 1 && !table[k].aged
                                                            else table[k] == old(table)[k]
      {
        ghost var before := table;
        var ok := AddEntry();
        ghost var e := Learn(0, ok, LEARNED_NHOP);
        assert table == if ok then before[q[i] := table[q[i]]] else before;
        forall k ensures Learns(q, oks + [ok], k) <==> Learns(q, oks, k) || (ok && k == q[i]) {
          LearnsMore(q, oks, ok, k);
        }
        if ok {
          var inTable: nat, aged: nat := *, *;
          BalanceTtl(inTable, aged);
          AddedToo(es, i, e, Balance(inTable, aged));
          es := es + [e] + [Balance(inTable, aged)];
        } else {
          RefusedToo(es, i, e);
          es := es + [e];
        }
        oks := oks + [ok];
        assert run == old(run) + es;
        i := i + 1;
      }
    }

    method TagEntry(key: Key) returns (tagged: bool)
      requires Valid()
      modifies this`table, this`totalAged, this`run
      ensures Valid() && run == old(run) + [Age(key, tagged)]
      ensures table == if tagged && key in old(table) then old(table)[key := old(table)[key].(aged := true)]
                       else old(table)
    {
      hide After, IsRun, Digests, TouchOf, Balanced;
      tagged := *;
      ghost var s := View();
      Extend(hs, run, Age(key, tagged));
      if tagged {
        if key in table {
          table := table[key := table[key].(aged := true)];
        }
        totalAged := Wrap32(totalAged + 1);
      }
      assert View() == Next(hs, s, Age(key, tagged));
      run := run + [Age(key, tagged)];
    }

    /** The aging callback: a tag that takes is counted and followed by a balance call. */
    method IdletimeCallback(key: Key) returns (ghost es: seq<Event>)
      requires Valid()
      modifies this`table, this`totalAged, this`run, ctl
      ensures Valid() && run == old(run) + es
      ensures (es == [Age(key, false)]) || (|es| == 2 && es[0] == Age(key, true) && es[1].Balance?)
    {
      hide After, IsRun, View;
      var tagged := TagEntry(key);
      es := [Age(key, tagged)];
      if tagged {
        var inTable: nat, aged: nat := *, *;
        BalanceTtl(inTable, aged);
        es := es + [Balance(inTable, aged)];
      }
      assert run == old(run) + es;
    }
  }
}
