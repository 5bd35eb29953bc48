/** The asynchronous offload loop as a step system: packets through the pipeline, digests in flight, the
    learn and aging callbacks and the controller, interleaved in any order.

    A run is the sequence of its events; the state is a function of the events seen so far. The outcomes of
    driver calls, the loss of digests and the evictions are part of the events, so every environment is a run. */
module Offload {
  import opened Sequences
  import opened Sketch
  import opened Ttl

  datatype Key = Key(src: nat, dst: nat)

  type Bits16 = n: nat | n < 0x1_0000

  /** The two 16-bit hash units, as unknown functions of the flow key. */
  datatype Hashes = Hashes(index: Key -> Bits16, fingerprint: Key -> Bits16)

  datatype Option<T> = None | Some(value: T)

  /** The four bucket candidates that a packet may carry. */
  datatype Cuckoo = Cuckoo(h1: nat, h2: nat, h3: nat, h4: nat)

  datatype Entry = Entry(nhop: nat, ttl: nat, aged: bool)

  datatype Event =
    | Packet(key: Key, cuckoo: Option<Cuckoo>)
    | Learn(pos: nat, ok: bool, nhop: nat)    // the learn callback takes one digest and tries to add its key
    | Lose(pos: nat)                          // a digest is dropped on its way
    | Age(key: Key, tagged: bool)             // the aging callback tries to tag an entry
    | Evict(key: Key)                         // the driver removes an entry
    | Balance(inTable: nat, aged: nat)        // the controller call, with the driver's counters

  datatype State = State(
    trace: seq<Touching>,
    table: map<Key, Entry>,
    queue: seq<Key>,
    totalInsert: nat,
    totalAged: nat,
    ctl: Ctl)

  const START: State := State([], map[], [], 0, 0, Ttl.INITIAL)

  // ---------------------------------------------------------------------------------------------
  // The ingress control

  /** The bucket of a packet: the entry's index on a hit, one of the four candidates on a miss, and the low
      14 bits of the hash if the packet carries no candidates. */
  function Index(hs: Hashes, table: map<Key, Entry>, key: Key, cuckoo: Option<Cuckoo>): nat {
    match cuckoo
    case None => hs.index(key) % 0x4000
    case Some(c) =>
      if key in table then table[key].nhop
      else
        match hs.index(key) % 4
        case 0 => c.h1
        case 1 => c.h2
        case 2 => c.h3
        case _ => c.h4
  }

  function TouchOf(hs: Hashes, table: map<Key, Entry>, key: Key, cuckoo: Option<Cuckoo>): Touching {
    Touching(Index(hs, table, key, cuckoo) % BUCKETS, hs.fingerprint(key))
  }

  /** The packets of a flow touch one bucket with one fingerprint: without candidates whatever the table holds,
      among the first 16384, and with candidates the one that the low two bits of the hash number while it misses;
      an installed flow touches the bucket that its entry names. */
  lemma BucketOfFlow(hs: Hashes, table: map<Key, Entry>, key: Key, c: Cuckoo)
    ensures TouchOf(hs, table, key, None) == Touching(hs.index(key) % 16384, hs.fingerprint(key))
    ensures key !in table ==>
              TouchOf(hs, table, key, Some(c))
              == Touching([c.h1, c.h2, c.h3, c.h4][hs.index(key) % 4] % 65536, hs.fingerprint(key))
    ensures key in table ==>
              TouchOf(hs, table, key, Some(c)) == Touching(table[key].nhop % 65536, hs.fingerprint(key))
  {
    assert (hs.index(key) % 16384) % BUCKETS == hs.index(key) % 16384;
  }

  /** The flag of the sketch after the packet, and the digest condition of the control. */
  predicate Digests(hs: Hashes, s: State, key: Key, cuckoo: Option<Cuckoo>) {
    var t := TouchOf(hs, s.table, key, cuckoo);
    RegOf(History(s.trace + [t], t.bucket)).count == HIT_COUNT && key !in s.table
  }

  // ---------------------------------------------------------------------------------------------
  // Steps

  /** 32-bit unsigned wrap-around. */
  function Wrap32(n: nat): nat {
    n % U32
  }

  predicate Enabled(s: State, e: Event) {
    match e
    case Learn(pos, _, _) => pos < |s.queue|
    case Lose(pos) => pos < |s.queue|
    case _ => true
  }

  /** The event is a successful add. */
  predicate Adds(s: State, e: Event) {
    e.Learn? && e.ok && Enabled(s, e)
  }

  function Next(hs: Hashes, s: State, e: Event): State {
    if !Enabled(s, e) then s else
    match e
    case Packet(key, cuckoo) =>
      s.(trace := s.trace + [TouchOf(hs, s.table, key, cuckoo)],
         queue := if Digests(hs, s, key, cuckoo) then s.queue + [key] else s.queue)
    case Learn(pos, ok, nhop) =>
      var k := s.queue[pos];
      s.(queue := RemoveAt(s.queue, pos),
         table := if ok then s.table[k := Entry(nhop, s.ctl.ttl, false)] else s.table,
         totalInsert := if ok then Wrap32(s.totalInsert + 1) else s.totalInsert)
    case Lose(pos) => s.(queue := RemoveAt(s.queue, pos))
    case Age(key, tagged) =>
      s.(table := if tagged && key in s.table then s.table[key := s.table[key].(aged := true)] else s.table,
         totalAged := if tagged then Wrap32(s.totalAged + 1) else s.totalAged)
    case Evict(key) => s.(table := s.table - {key})
    case Balance(inTable, aged) => s.(ctl := Balanced(s.ctl, inTable, aged))
  }

  /** The state after the events. */
  function After(hs: Hashes, es: seq<Event>): State {
    if es == [] then START else Next(hs, After(hs, es[..|es| - 1]), es[|es| - 1])
  }

  lemma AfterLast(hs: Hashes, es: seq<Event>)
    requires es != []
    ensures After(hs, es) == Next(hs, After(hs, es[..|es| - 1]), es[|es| - 1])
  {
    hide Next;
  }

  /** Every event is possible when it happens. */
  ghost predicate IsRun(hs: Hashes, es: seq<Event>) {
    forall i | 0 <= i < |es| :: Enabled(After(hs, es[..i]), es[i])
  }

  // ---------------------------------------------------------------------------------------------
  // Where installed keys come from

  /** Event `j` is a packet of `k` that misses the table and completes a run of ten in its bucket. */
  ghost predicate Origin(hs: Hashes, es: seq<Event>, j: int, k: Key) {
    && 0 <= j < |es| && es[j].Packet? && es[j].key == k
    && var s := After(hs, es[..j]);
       var t := TouchOf(hs, s.table, k, es[j].cuckoo);
       k !in s.table && RunLen(History(s.trace + [t], t.bucket)) == 10
  }

  lemma OriginStays(hs: Hashes, es: seq<Event>, n: nat, j: int, k: Key)
    requires n <= |es| && Origin(hs, es[..n], j, k)
    ensures Origin(hs, es, j, k)
  {
    assert es[..n][..j] == es[..j];
  }

  lemma DigestOrigin(hs: Hashes, es: seq<Event>, k: Key)
    requires es != []
    requires var e := es[|es| - 1]; e.Packet? && e.key == k && Digests(hs, After(hs, es[..|es| - 1]), k, e.cuckoo)
    ensures Origin(hs, es, |es| - 1, k)
  {
  }

  /** Every digest in flight and every key in the table was reported by such a packet. */
  lemma {:induction false} EveryOrigin(hs: Hashes, es: seq<Event>, k: Key)
    requires k in After(hs, es).queue || k in After(hs, es).table
    ensures exists j :: Origin(hs, es, j, k)
    decreases |es|
  {
    if es != [] {
      var init, e := es[..|es| - 1], es[|es| - 1];
      var s := After(hs, init);
      if k in s.queue || k in s.table {
        EveryOrigin(hs, init, k);
        var j :| Origin(hs, init, j, k);
        OriginStays(hs, es, |es| - 1, j, k);
      } else {
        assert e.Packet? && e.key == k && Digests(hs, s, k, e.cuckoo) by { hide Digests, After, TouchOf; }
        DigestOrigin(hs, es, k);
      }
    }
  }

  /** A key that the learn callback installs was reported before, by a packet of that key that missed the
      table and completed a run of ten. */
  lemma InstalledWasReported(hs: Hashes, es: seq<Event>, i: nat)
    requires i < |es| && es[i].Learn? && es[i].ok && Enabled(After(hs, es[..i]), es[i])
    ensures var k := After(hs, es[..i]).queue[es[i].pos]; exists j :: j < i && Origin(hs, es, j, k)
  {
    hide After, Origin;
    var k := After(hs, es[..i]).queue[es[i].pos];
    EveryOrigin(hs, es[..i], k);
    var j :| Origin(hs, es[..i], j, k);
    assert j < i by { OriginRange(hs, es[..i], j, k); }
    OriginStays(hs, es, i, j, k);
  }

  lemma OriginRange(hs: Hashes, es: seq<Event>, j: int, k: Key)
    requires Origin(hs, es, j, k)
    ensures 0 <= j < |es|
  {
  }

  // ---------------------------------------------------------------------------------------------
  // What the table holds

  /** Event `i` adds key `k`. */
  ghost predicate Installs(hs: Hashes, es: seq<Event>, i: int, k: Key) {
    && 0 <= i < |es| && Adds(After(hs, es[..i]), es[i])
    && After(hs, es[..i]).queue[es[i].pos] == k
  }

  /** Event `i` adds key `k`, and no later event adds or evicts it. */
  ghost predicate LastInstall(hs: Hashes, es: seq<Event>, i: int, k: Key) {
    Installs(hs, es, i, k) && forall j | i < j < |es| :: es[j] != Evict(k) && !Installs(hs, es, j, k)
  }

  /** Some event after event `i` tags key `k`. */
  ghost predicate TaggedSince(es: seq<Event>, i: int, k: Key) {
    exists j :: 0 <= i < j < |es| && es[j] == Age(k, true)
  }

  /** One event on the entry of one key: an add writes it with its next hop and the current time-to-live, an
      eviction removes it, a tag marks it, and nothing else touches it. */
  lemma EntryStep(hs: Hashes, s: State, e: Event, k: Key)
    ensures var t := Next(hs, s, e).table;
            if Adds(s, e) && s.queue[e.pos] == k then
              k in t && t[k] == Entry(e.nhop, s.ctl.ttl, false)
            else if e == Evict(k) then
              k !in t
            else
              && (k in t <==> k in s.table)
              && (k in t ==> t[k] == s.table[k].(aged := s.table[k].aged || e == Age(k, true)))
  {
    hide Digests, TouchOf, Balanced, RemoveAt, Wrap32;
  }

  lemma InstallsInit(hs: Hashes, es: seq<Event>, i: int, k: Key)
    requires es != [] && i < |es| - 1
    ensures Installs(hs, es, i, k) <==> Installs(hs, es[..|es| - 1], i, k)
  {
    if 0 <= i {
      assert es[..|es| - 1][..i] == es[..i];
    }
  }

  lemma LastInstallInit(hs: Hashes, es: seq<Event>, i: int, k: Key)
    requires 0 <= i < |es| - 1
    ensures var n := |es| - 1;
            && (LastInstall(hs, es, i, k)
                <==> LastInstall(hs, es[..n], i, k) && es[n] != Evict(k) && !Installs(hs, es, n, k))
            && (TaggedSince(es, i, k) <==> TaggedSince(es[..n], i, k) || es[n] == Age(k, true))
  {
    hide Installs;
    var n := |es| - 1;
    assert forall j | 0 <= j < n :: es[..n][j] == es[j];
    forall j | j < n ensures Installs(hs, es, j, k) <==> Installs(hs, es[..n], j, k) {
      InstallsInit(hs, es, j, k);
    }
    if TaggedSince(es, i, k) && es[n] != Age(k, true) {
      var j :| 0 <= i < j < |es| && es[j] == Age(k, true);
      assert es[..n][j] == Age(k, true);
    }
    if TaggedSince(es[..n], i, k) {
      var j :| 0 <= i < j < n && es[..n][j] == Age(k, true);
      assert es[j] == Age(k, true);
    }
  }

  lemma {:induction false} EntryIs(hs: Hashes, es: seq<Event>, i: int, k: Key)
    requires LastInstall(hs, es, i, k)
    ensures k in After(hs, es).table
    ensures After(hs, es).table[k] == Entry(es[i].nhop, After(hs, es[..i]).ctl.ttl, TaggedSince(es, i, k))
    decreases |es|
  {
    LastInstallIs(hs, es, i, k);
    hide Next, After, LastInstall, TaggedSince;
    var n := |es| - 1;
    AfterLast(hs, es);
    EntryStep(hs, After(hs, es[..n]), es[n], k);
    if i < n {
      LastInstallInit(hs, es, i, k);
      EntryIs(hs, es[..n], i, k);
      assert es[..n][..i] == es[..i];
    } else {
      NotSince(es, k);
    }
  }

  /** A key is in the table if and only if some event added it and none evicted it since; its entry has the next
      hop of the last such event, the time-to-live of that moment, and a tag exactly if it was tagged since. */
  lemma {:induction false} TableHistory(hs: Hashes, es: seq<Event>, k: Key)
    ensures k in After(hs, es).table <==> exists i :: LastInstall(hs, es, i, k)
    ensures forall i | LastInstall(hs, es, i, k) ::
              After(hs, es).table[k] == Entry(es[i].nhop, After(hs, es[..i]).ctl.ttl, TaggedSince(es, i, k))
    decreases |es|
  {
    forall i | LastInstall(hs, es, i, k)
      ensures k in After(hs, es).table
      ensures After(hs, es).table[k] == Entry(es[i].nhop, After(hs, es[..i]).ctl.ttl, TaggedSince(es, i, k))
    {
      EntryIs(hs, es, i, k);
    }
    if k in After(hs, es).table {
      SomeInstall(hs, es, k);
    }
  }

  lemma {:induction false} SomeInstall(hs: Hashes, es: seq<Event>, k: Key)
    requires k in After(hs, es).table
    ensures exists i :: LastInstall(hs, es, i, k)
    decreases |es|
  {
    assert es == [] ==> After(hs, es) == START;
    hide Next, After, LastInstall;
    if es != [] {
      var n := |es| - 1;
      AfterLast(hs, es);
      EntryStep(hs, After(hs, es[..n]), es[n], k);
      if Installs(hs, es, n, k) {
        LastIsLast(hs, es, k);
      } else {
        SomeInstall(hs, es[..n], k);
        var i :| LastInstall(hs, es[..n], i, k);
        LastInstallIs(hs, es[..n], i, k);
        LastInstallInit(hs, es, i, k);
      }
    }
  }

  lemma LastInstallIs(hs: Hashes, es: seq<Event>, i: int, k: Key)
    requires LastInstall(hs, es, i, k)
    ensures 0 <= i < |es| && Installs(hs, es, i, k)
  {
  }

  lemma LastIsLast(hs: Hashes, es: seq<Event>, k: Key)
    requires Installs(hs, es, |es| - 1, k)
    ensures LastInstall(hs, es, |es| - 1, k)
  {
  }

  lemma NotSince(es: seq<Event>, k: Key)
    ensures !TaggedSince(es, |es| - 1, k)
  {
  }

  // ---------------------------------------------------------------------------------------------
  // Conservation of digests

  /** The keys of the digests sent so far, with multiplicity. */
  function Sent(hs: Hashes, es: seq<Event>): multiset<Key> {
    if es == [] then multiset{}
    else
      var init, e := es[..|es| - 1], es[|es| - 1];
      if e.Packet? && Digests(hs, After(hs, init), e.key, e.cuckoo) then Sent(hs, init) + multiset{e.key}
      else Sent(hs, init)
  }

  /** The keys of the digests that the learn callback took with the given outcome. */
  function Learned(hs: Hashes, es: seq<Event>, ok: bool): multiset<Key> {
    if es == [] then multiset{}
    else
      var init, e := es[..|es| - 1], es[|es| - 1];
      if e.Learn? && e.ok == ok && Enabled(After(hs, init), e) then
        Learned(hs, init, ok) + multiset{After(hs, init).queue[e.pos]}
      else Learned(hs, init, ok)
  }

  function Lost(hs: Hashes, es: seq<Event>): multiset<Key> {
    if es == [] then multiset{}
    else
      var init, e := es[..|es| - 1], es[|es| - 1];
      if e.Lose? && Enabled(After(hs, init), e) then Lost(hs, init) + multiset{After(hs, init).queue[e.pos]}
      else Lost(hs, init)
  }

  lemma Regroup<T>(q: multiset<T>, a: multiset<T>, r: multiset<T>, l: multiset<T>, x: T)
    ensures q + multiset{x} + a + r + l == q + (a + multiset{x}) + r + l
    ensures q + multiset{x} + a + r + l == q + a + (r + multiset{x}) + l
    ensures q + multiset{x} + a + r + l == q + a + r + (l + multiset{x})
  {
  }

  /** Each digest sent is in flight, was added, was refused or was lost: none is duplicated or made up. */
  lemma {:induction false} DigestsConserved(hs: Hashes, es: seq<Event>)
    ensures Sent(hs, es)
         == multiset(After(hs, es).queue) + Learned(hs, es, true) + Learned(hs, es, false) + Lost(hs, es)
    decreases |es|
  {
    if es == [] {
      assert After(hs, es) == START;
    } else {
      hide Digests, TouchOf, After, Balanced;
      var init, e := es[..|es| - 1], es[|es| - 1];
      DigestsConserved(hs, init);
      AfterLast(hs, es);
      var s := After(hs, init);
      var q, a, r, l := multiset(s.queue), Learned(hs, init, true), Learned(hs, init, false), Lost(hs, init);
      if e.Packet? && Digests(hs, s, e.key, e.cuckoo) {
        assert multiset(s.queue + [e.key]) == q + multiset{e.key};
      } else if (e.Learn? || e.Lose?) && Enabled(s, e) {
        TakeOut(s.queue, e.pos);
        Regroup(multiset(RemoveAt(s.queue, e.pos)), a, r, l, s.queue[e.pos]);
      }
    }
  }

  function TagCount(es: seq<Event>): nat {
    if es == [] then 0
    else TagCount(es[..|es| - 1]) + if es[|es| - 1].Age? && es[|es| - 1].tagged then 1 else 0
  }

  lemma OneAdded(hs: Hashes, es: seq<Event>)
    requires es != []
    ensures var init, e := es[..|es| - 1], es[|es| - 1];
            |Learned(hs, es, true)| == |Learned(hs, init, true)| + if Adds(After(hs, init), e) then 1 else 0
  {
    hide After;
    var init, e := es[..|es| - 1], es[|es| - 1];
    if Adds(After(hs, init), e) {
      PlusOne(Learned(hs, init, true), After(hs, init).queue[e.pos]);
    }
  }

  lemma PlusOne<T>(m: multiset<T>, x: T)
    ensures |m + multiset{x}| == |m| + 1
  {
  }

  lemma CountedAdd(hs: Hashes, s: State, e: Event)
    ensures Next(hs, s, e).totalInsert == if Adds(s, e) then Wrap32(s.totalInsert + 1) else s.totalInsert
  {
    hide Digests, TouchOf, Balanced, Wrap32, RemoveAt;
  }

  /** `total_insert` is the number of successful adds, in 32 bits. */
  lemma InsertTotal(hs: Hashes, es: seq<Event>)
    ensures After(hs, es).totalInsert == |Learned(hs, es, true)| % 0x1_0000_0000
  {
    InsertCount(hs, es);
  }

  lemma {:induction false} InsertCount(hs: Hashes, es: seq<Event>)
    ensures After(hs, es).totalInsert == Wrap32(|Learned(hs, es, true)|)
    decreases |es|
  {
    if es == [] {
      hide Next;
      assert After(hs, es) == START;
    } else {
      hide Next, After, Wrap32, Learned, Adds;
      var init, e := es[..|es| - 1], es[|es| - 1];
      InsertCount(hs, init);
      AfterLast(hs, es);
      CountedAdd(hs, After(hs, init), e);
      OneAdded(hs, es);
      WrapIncrement(|Learned(hs, init, true)|);
    }
  }

  /** `total_aged` is the number of tags that took, in 32 bits. */
  lemma AgedTotal(hs: Hashes, es: seq<Event>)
    ensures After(hs, es).totalAged == TagCount(es) % 0x1_0000_0000
  {
    AgedCount(hs, es);
  }

  lemma {:induction false} AgedCount(hs: Hashes, es: seq<Event>)
    ensures After(hs, es).totalAged == Wrap32(TagCount(es))
    decreases |es|
  {
    if es == [] {
      assert After(hs, es) == START;
    } else {
      hide Digests, TouchOf, After, Balanced, Wrap32;
      AgedCount(hs, es[..|es| - 1]);
      AfterLast(hs, es);
      WrapIncrement(TagCount(es[..|es| - 1]));
    }
  }

  lemma WrapIncrement(n: nat)
    ensures Wrap32(Wrap32(n) + 1) == Wrap32(n + 1)
  {
  }

  // ---------------------------------------------------------------------------------------------
  // The controller inside the loop

  function CallsOf(es: seq<Event>): (cs: seq<Call>)
    ensures |cs| <= |es|
  {
    if es == [] then []
    else
      var e := es[|es| - 1];
      CallsOf(es[..|es| - 1]) + if e.Balance? then [Call(e.inTable, e.aged)] else []
  }

  lemma {:induction false} CtlIsBalance(hs: Hashes, es: seq<Event>)
    ensures After(hs, es).ctl == BalanceAll(Ttl.INITIAL, CallsOf(es))
    decreases |es|
  {
    if es != [] {
      hide Digests, TouchOf;
      var init, e := es[..|es| - 1], es[|es| - 1];
      CtlIsBalance(hs, init);
      if e.Balance? {
        var cs := CallsOf(es);
        assert cs[..|cs| - 1] == CallsOf(init);
      } else {
        assert CallsOf(es) == CallsOf(init);
      }
    }
  }

  /** What an add would write is at least 56 at all times of the run if and only if no balance call takes the
      time-to-live past 64 bits. */
  lemma {:induction false} WrittenTtl(hs: Hashes, es: seq<Event>)
    ensures (forall i | 0 <= i <= |es| :: After(hs, es[..i]).ctl.ttl >= 56) <==> NeverTops(CallsOf(es))
    decreases |es|
  {
    hide After, NeverTops, FloorKept, Tops, BalanceAll;
    CtlIsBalance(hs, es);
    TtlFloor(CallsOf(es));
    assert es[..|es|] == es;
    if es == [] {
      ShortNeverTops([]);
      assert FloorKept([]) ==> BalanceAll(Ttl.INITIAL, []).ttl >= 56 by { FloorNow([]); }
    } else {
      var init, cs := es[..|es| - 1], CallsOf(es);
      WrittenTtl(hs, init);
      CtlIsBalance(hs, init);
      TtlFloor(CallsOf(init));
      assert forall i | 0 <= i <= |init| :: init[..i] == es[..i];
      if es[|es| - 1].Balance? {
        assert cs[..|cs| - 1] == CallsOf(init);
        InitTops(cs);
      } else {
        assert cs == CallsOf(init);
        assert es[..|init|] == init;
      }
    }
  }

  lemma FewerCalls(hs: Hashes, es: seq<Event>)
    requires es != [] && NeverTops(CallsOf(es))
    ensures NeverTops(CallsOf(es[..|es| - 1])) && After(hs, es[..|es| - 1]).ctl.ttl >= 56
  {
    hide After, NeverTops;
    var init := es[..|es| - 1];
    WrittenTtl(hs, es);
    WrittenTtl(hs, init);
    assert forall i | 0 <= i <= |init| :: init[..i] == es[..i];
    assert es[..|init|] == init;
  }

  lemma EntryNext(hs: Hashes, s: State, e: Event, k: Key)
    requires k in Next(hs, s, e).table
    ensures var ttl := Next(hs, s, e).table[k].ttl; ttl == s.ctl.ttl || (k in s.table && ttl == s.table[k].ttl)
  {
    hide Digests, TouchOf, Balanced, RemoveAt;
  }

  /** No entry is ever written with less. */
  lemma {:induction false} EntryTtl(hs: Hashes, es: seq<Event>, k: Key)
    requires NeverTops(CallsOf(es)) && k in After(hs, es).table
    ensures After(hs, es).table[k].ttl >= 56
    decreases |es|
  {
    hide Next, NeverTops;
    if es != [] {
      var init := es[..|es| - 1];
      FewerCalls(hs, es);
      EntryNext(hs, After(hs, init), es[|es| - 1], k);
      if k in After(hs, init).table {
        EntryTtl(hs, init, k);
      }
    }
  }

  // ---------------------------------------------------------------------------------------------
  // The sketch inside the loop

  /** Event `j` is a packet of bucket `b`. */
  predicate Touches(hs: Hashes, es: seq<Event>, j: nat, b: nat)
    requires j < |es|
  {
    es[j].Packet? && TouchOf(hs, After(hs, es[..j]).table, es[j].key, es[j].cuckoo).bucket == b
  }

  /** The digests sent by packets of one bucket. */
  function DigestCount(hs: Hashes, es: seq<Event>, b: nat): nat {
    if es == [] then 0
    else
      var init, e := es[..|es| - 1], es[|es| - 1];
      var s := After(hs, init);
      DigestCount(hs, init, b)
      + if Touches(hs, es, |es| - 1, b) && Digests(hs, s, e.key, e.cuckoo) then 1 else 0
  }

  lemma {:induction false} DigestsAreFlags(hs: Hashes, es: seq<Event>, b: nat)
    ensures DigestCount(hs, es, b) <= FlagCount(History(After(hs, es).trace, b))
    decreases |es|
  {
    if es != [] {
      var init, e := es[..|es| - 1], es[|es| - 1];
      DigestsAreFlags(hs, init, b);
      if e.Packet? {
        var s := After(hs, init);
        var t := TouchOf(hs, s.table, e.key, e.cuckoo);
        HistoryStep(s.trace, t, b);
        var h := History(s.trace, b);
        assert (h + [t.fp])[..|h + [t.fp]| - 1] == h;
        hide History, RunLen, Last;
        assert t.bucket == b && Digests(hs, s, e.key, e.cuckoo) ==> RunLen(h + [t.fp]) == HIT_COUNT;
        assert FlagCount(h + [t.fp]) == FlagCount(h) + if RunLen(h + [t.fp]) == HIT_COUNT then 1 else 0;
      }
    }
  }

  /** Ten times the digests of a bucket never exceed its packets by more than one. */
  lemma DigestRate(hs: Hashes, es: seq<Event>, b: nat)
    ensures 10 * DigestCount(hs, es, b) <= |History(After(hs, es).trace, b)| + 1
  {
    DigestsAreFlags(hs, es, b);
    ReportRate(History(After(hs, es).trace, b));
  }

  /** The packets of bucket `b` from event `i` on. */
  function TouchCount(hs: Hashes, es: seq<Event>, i: nat, b: nat): nat
    decreases |es|
  {
    if |es| <= i then 0
    else TouchCount(hs, es[..|es| - 1], i, b) + if Touches(hs, es, |es| - 1, b) then 1 else 0
  }

  /** From event `i` on, all packets of bucket `b` have fingerprint `f`. */
  ghost predicate OnlyPrint(hs: Hashes, es: seq<Event>, i: nat, b: nat, f: nat) {
    forall j: nat | i <= j < |es| && Touches(hs, es, j, b) :: hs.fingerprint(es[j].key) == f
  }

  lemma OnlyPrintInit(hs: Hashes, es: seq<Event>, i: nat, b: nat, f: nat)
    requires OnlyPrint(hs, es, i, b, f) && es != []
    ensures OnlyPrint(hs, es[..|es| - 1], i, b, f)
  {
    var init := es[..|es| - 1];
    forall j: nat | i <= j < |init| && Touches(hs, init, j, b) ensures hs.fingerprint(init[j].key) == f {
      assert init[..j] == es[..j];
      assert Touches(hs, es, j, b);
    }
  }

  lemma LastHistory(hs: Hashes, es: seq<Event>, b: nat)
    requires es != []
    ensures var init, e := es[..|es| - 1], es[|es| - 1];
            History(After(hs, es).trace, b)
            == History(After(hs, init).trace, b) + if Touches(hs, es, |es| - 1, b) then [hs.fingerprint(e.key)] else []
  {
    var init, e := es[..|es| - 1], es[|es| - 1];
    AfterLast(hs, es);
    hide After, History, Digests, Balanced;
    var s := After(hs, init);
    if e.Packet? {
      HistoryStep(s.trace, TouchOf(hs, s.table, e.key, e.cuckoo), b);
    }
  }

  lemma {:induction false} PrintsSince(hs: Hashes, es: seq<Event>, i: nat, b: nat, f: nat)
    requires i <= |es| && OnlyPrint(hs, es, i, b, f)
    ensures History(After(hs, es).trace, b)
         == History(After(hs, es[..i]).trace, b) + seq(TouchCount(hs, es, i, b), _ => f)
    decreases |es|
  {
    hide After, History, Touches;
    if i == |es| {
      assert es[..i] == es;
    } else {
      var init := es[..|es| - 1];
      OnlyPrintInit(hs, es, i, b, f);
      PrintsSince(hs, init, i, b, f);
      assert init[..i] == es[..i];
      LastHistory(hs, es, b);
      var n := TouchCount(hs, init, i, b);
      assert seq(n, _ => f) + [f] == seq(n + 1, _ => f);
    }
  }

  /** In every interleaving, the packets of a fresh run in a bucket send a digest at the tenth, if its key misses
      the table, and at no other: whatever other packets, learning, aging and evictions come between. */
  lemma FreshRunDigest(hs: Hashes, es: seq<Event>, i: nat, b: nat, f: nat)
    requires i < |es| && Last(History(After(hs, es[..i]).trace, b)) != f && OnlyPrint(hs, es, i, b, f)
    requires Touches(hs, es, |es| - 1, b)
    ensures var s, e := After(hs, es[..|es| - 1]), es[|es| - 1];
            && (Digests(hs, s, e.key, e.cuckoo) <==> TouchCount(hs, es, i, b) == 10 && e.key !in s.table)
            && After(hs, es).queue == if Digests(hs, s, e.key, e.cuckoo) then s.queue + [e.key] else s.queue
  {
    AfterLast(hs, es);
    PrintsSince(hs, es, i, b, f);
    var h, n := History(After(hs, es[..i]).trace, b), TouchCount(hs, es, i, b);
    FreshRun(h, f, n);
    assert (h + seq(n, _ => f))[..|h| + n] == h + seq(n, _ => f);
    hide After, History, RegOf, Last;
  }
}
