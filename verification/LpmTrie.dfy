/** The longest-prefix-match table: for each family one ordered map per prefix length, searched from the
    longest length down. Building and parsing the text of an address are inverse to each other and left out;
    the order of the maps identifies exactly equal prefixes, so each is a finite map. */
module LpmTrie {
  import opened IpBytes
  import opened IpPrefix

  type Level = map<Prefix, string>

  /** Every key sits at the level of its length, in the table of its family, and is masked to that length. */
  ghost predicate LevelsOk(levels: seq<Level>, v4: bool) {
    forall n, p | 0 <= n < |levels| && p in levels[n] :: p.mask == n && p.ip.V4? == v4 && Subnet(p) == p
  }

  ghost function Keys(levels: seq<Level>): set<Prefix> {
    set n, p | 0 <= n < |levels| && p in levels[n] :: p
  }

  /** What the levels hold, as one map. */
  ghost function Contents(levels: seq<Level>, v4: bool): map<Prefix, string>
    requires LevelsOk(levels, v4)
  {
    map p | p in Keys(levels) :: levels[p.mask][p]
  }

  lemma KeyAt(levels: seq<Level>, v4: bool, p: Prefix)
    requires LevelsOk(levels, v4)
    ensures p in Contents(levels, v4) <==> p.mask < |levels| && p in levels[p.mask]
    ensures p in Contents(levels, v4) ==> Contents(levels, v4)[p] == levels[p.mask][p]
  {
  }

  function PutLevels(levels: seq<Level>, p: Prefix, info: string): seq<Level>
    requires p.mask < |levels|
  {
    levels[p.mask := levels[p.mask] + map[p := info]]
  }

  function RemoveLevels(levels: seq<Level>, p: Prefix): seq<Level>
    requires p.mask < |levels|
  {
    levels[p.mask := levels[p.mask] - {p}]
  }

  lemma PutLevelsOk(levels: seq<Level>, v4: bool, p: Prefix, info: string)
    requires LevelsOk(levels, v4) && p.mask < |levels| && p.ip.V4? == v4 && Subnet(p) == p
    ensures LevelsOk(PutLevels(levels, p, info), v4)
  {
    hide Subnet;
  }

  lemma PutContents(levels: seq<Level>, v4: bool, p: Prefix, info: string)
    requires LevelsOk(levels, v4) && p.mask < |levels| && LevelsOk(PutLevels(levels, p, info), v4)
    ensures Contents(PutLevels(levels, p, info), v4) == Contents(levels, v4) + map[p := info]
  {
    hide Contents, LevelsOk;
    forall q: Prefix
      ensures q in Contents(PutLevels(levels, p, info), v4) <==> q == p || q in Contents(levels, v4)
      ensures q in Contents(PutLevels(levels, p, info), v4) ==>
                Contents(PutLevels(levels, p, info), v4)[q] == if q == p then info else Contents(levels, v4)[q]
    {
      KeyAt(levels, v4, q);
      KeyAt(PutLevels(levels, p, info), v4, q);
    }
  }

  lemma RemoveLevelsOk(levels: seq<Level>, v4: bool, p: Prefix)
    requires LevelsOk(levels, v4) && p.mask < |levels|
    ensures LevelsOk(RemoveLevels(levels, p), v4)
  {
    hide Subnet;
  }

  lemma RemoveContents(levels: seq<Level>, v4: bool, p: Prefix)
    requires LevelsOk(levels, v4) && p.mask < |levels| && LevelsOk(RemoveLevels(levels, p), v4)
    ensures Contents(RemoveLevels(levels, p), v4) == Contents(levels, v4) - {p}
  {
    hide Contents, LevelsOk;
    forall q: Prefix
      ensures q in Contents(RemoveLevels(levels, p), v4) <==> q != p && q in Contents(levels, v4)
      ensures q in Contents(RemoveLevels(levels, p), v4) ==>
                Contents(RemoveLevels(levels, p), v4)[q] == Contents(levels, v4)[q]
    {
      KeyAt(levels, v4, q);
      KeyAt(RemoveLevels(levels, p), v4, q);
    }
  }

  lemma UnionPut(a: Level, b: Level, p: Prefix, info: string)
    ensures a + (b + map[p := info]) == (a + b) + map[p := info]
    ensures p !in b ==> (a + map[p := info]) + b == (a + b) + map[p := info]
  {
  }

  lemma UnionRemove(a: Level, b: Level, p: Prefix)
    ensures p !in a ==> a + (b - {p}) == (a + b) - {p}
    ensures p !in b ==> (a - {p}) + b == (a + b) - {p}
  {
  }

  /** Keys of one family are not in the table of the other. */
  lemma OtherFamily(levels: seq<Level>, v4: bool, p: Prefix)
    requires LevelsOk(levels, v4) && p.ip.V4? != v4
    ensures p !in Contents(levels, v4)
  {
    hide Subnet;
    KeyAt(levels, v4, p);
  }

  /** `p` is the longest prefix of the table that holds the address. */
  ghost predicate LongestMatch(routes: map<Prefix, string>, a: Address, p: Prefix) {
    p in routes && InSubnet(p, a) && forall q <- routes | InSubnet(q, a) :: q.mask <= p.mask
  }

  /** The longest match is unique among masked prefixes, so a lookup that finds one finds its value. */
  lemma LongestMatchUnique(routes: map<Prefix, string>, a: Address, p: Prefix, q: Prefix)
    requires forall r <- routes :: Subnet(r) == r
    requires LongestMatch(routes, a, p) && LongestMatch(routes, a, q)
    ensures p == q
  {
    assert p.ip.V4? == a.V4? == q.ip.V4?;
    hide Subnet, InSubnet;
    SubnetOfAddress(p, a);
    SubnetOfAddress(q, a);
  }

  class FibHash {
    var fib: seq<Level>
    var fib6: seq<Level>

    ghost predicate Valid()
      reads this
    {
      |fib| == 33 && |fib6| == 129 && LevelsOk(fib, true) && LevelsOk(fib6, false)
    }

    ghost function Routes(): map<Prefix, string>
      requires Valid()
      reads this
    {
      Contents(fib, true) + Contents(fib6, false)
    }

    constructor ()
      ensures Valid() && Routes() == map[]
    {
      fib := seq(33, _ => map[]);
      fib6 := seq(129, _ => map[]);
    }

    function Table(v4: bool): seq<Level>
      reads this
    {
      if v4 then fib else fib6
    }

    lemma RouteAt(p: Prefix)
      requires Valid()
      ensures p.mask < |Table(p.ip.V4?)|
      ensures p in Routes() <==> p in Table(p.ip.V4?)[p.mask]
      ensures p in Routes() ==> Routes()[p] == Table(p.ip.V4?)[p.mask][p] && Subnet(p) == p
    {
      hide Subnet;
      KeyAt(fib, true, p);
      KeyAt(fib6, false, p);
    }

    method IsExist(p: Prefix) returns (r: bool)
      requires Valid()
      ensures r <==> Subnet(p) in Routes()
    {
      var key := GetSubnet(p);
      RouteAt(key);
      var table := Table(p.ip.V4?);
      r := p.mask < |table| && key in table[p.mask];
    }

    method Get(p: Prefix) returns (r: bool, info: string)
      requires Valid()
      ensures r <==> Subnet(p) in Routes()
      ensures r ==> info == Routes()[Subnet(p)]
    {
      var key := GetSubnet(p);
      RouteAt(key);
      var table := Table(p.ip.V4?);
      r, info := false, "";
      if p.mask < |table| {
        if key in table[p.mask] {
          r, info := true, table[p.mask][key];
        }
      }
    }

    /** Stores the value at the level of a masked prefix. */
    method Put(key: Prefix, info: string)
      requires Valid() && Subnet(key) == key
      modifies this
      ensures Valid() && Routes() == old(Routes()) + map[key := info]
    {
      hide Subnet, LevelsOk, Contents;
      if key.ip.V4? {
        PutLevelsOk(fib, true, key, info);
        PutContents(fib, true, key, info);
        OtherFamily(fib6, false, key);
        UnionPut(Contents(fib, true), Contents(fib6, false), key, info);
        fib := PutLevels(fib, key, info);
      } else {
        PutLevelsOk(fib6, false, key, info);
        PutContents(fib6, false, key, info);
        UnionPut(Contents(fib, true), Contents(fib6, false), key, info);
        fib6 := PutLevels(fib6, key, info);
      }
    }

    method Insert(p: Prefix, info: string) returns (r: bool)
      requires Valid()
      modifies this
      ensures Valid() && r && Routes() == old(Routes()) + map[Subnet(p) := info]
    {
      var key := GetSubnet(p);
      SubnetIdempotent(p, p.ip);
      Put(key, info);
      r := true;
    }

    method Modify(p: Prefix, info: string) returns (r: bool)
      requires Valid()
      modifies this
      ensures Valid() && (r <==> Subnet(p) in old(Routes()))
      ensures Routes() == if r then old(Routes()) + map[Subnet(p) := info] else old(Routes())
    {
      var key := GetSubnet(p);
      r := IsExist(p);
      SubnetIdempotent(p, p.ip);
      if r {
        Put(key, info);
      }
    }

    method Delete(p: Prefix) returns (r: bool)
      requires Valid()
      modifies this
      ensures Valid() && r && Routes() == old(Routes()) - {Subnet(p)}
    {
      hide Subnet, LevelsOk, Contents;
      var present := IsExist(p);
      r := true;
      if !present {
        return;
      }
      var key := GetSubnet(p);
      SubnetKeeps(p);
      if p.ip.V4? {
        RemoveLevelsOk(fib, true, key);
        RemoveContents(fib, true, key);
        OtherFamily(fib6, false, key);
        UnionRemove(Contents(fib, true), Contents(fib6, false), key);
        fib := RemoveLevels(fib, key);
      } else {
        RemoveLevelsOk(fib6, false, key);
        RemoveContents(fib6, false, key);
        OtherFamily(fib, true, key);
        UnionRemove(Contents(fib, true), Contents(fib6, false), key);
        fib6 := RemoveLevels(fib6, key);
      }
    }

    /** Finds the value of the longest stored prefix that holds the address, and fails exactly when none does. */
    method Lookup(dst: Address) returns (r: bool, info: string)
      requires Valid()
      ensures r <==> exists p <- Routes() :: InSubnet(p, dst)
      ensures r ==> exists p :: LongestMatch(Routes(), dst, p) && info == Routes()[p]
    {
      hide Subnet, InSubnet, LevelsOk, Contents, LongestMatch;
      var table := Table(dst.V4?);
      var n := |table|;
      forall q <- Routes() | InSubnet(q, dst) ensures q.mask < n {
        RouteAt(q);
        SameFamily(q, dst);
      }
      while n > 0
        invariant 0 <= n <= |table|
        invariant forall q <- Routes() | InSubnet(q, dst) :: q.mask < n
      {
        n := n - 1;
        var key := GetSubnet(Prefix(dst, n));
        ProbeLevel(dst, n, key);
        if key in table[n] {
          return true, table[n][key];
        }
      }
      r, info := false, "";
    }

    /** The one key probed at a level is the only prefix of that length that can hold the address. */
    lemma ProbeLevel(dst: Address, n: nat, key: Prefix)
      requires Valid() && n < |Table(dst.V4?)| && key == Subnet(Prefix(dst, n))
      requires forall q <- Routes() | InSubnet(q, dst) :: q.mask <= n
      ensures if key in Table(dst.V4?)[n] then
                && key in Routes() && InSubnet(key, dst)
                && LongestMatch(Routes(), dst, key) && Table(dst.V4?)[n][key] == Routes()[key]
              else forall q <- Routes() | InSubnet(q, dst) :: q.mask < n
    {
      SubnetKeeps(Prefix(dst, n));
      hide Subnet, InSubnet, LevelsOk, Contents;
      RouteAt(key);
      if key in Table(dst.V4?)[n] {
        SubnetOfAddress(key, dst);
      } else {
        forall q <- Routes() | InSubnet(q, dst) ensures q.mask < n {
          RouteAt(q);
          SameFamily(q, dst);
          SubnetOfAddress(q, dst);
        }
      }
    }
  }

  lemma SubnetKeeps(p: Prefix)
    ensures Subnet(p).mask == p.mask && Subnet(p).ip.V4? == p.ip.V4?
  {
  }

  lemma SameFamily(p: Prefix, a: Address)
    requires InSubnet(p, a)
    ensures p.ip.V4? == a.V4?
  {
  }
}
