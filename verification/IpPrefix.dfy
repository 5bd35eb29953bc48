/** Addresses and prefixes of both families. An IPv4 address is the 32-bit word that holds its four bytes in
    network order on a little-endian host; an IPv6 address is its sixteen bytes. */
module IpPrefix {
  import opened IpBytes

  datatype RawAddress = V4(word: bv32) | V6(bytes: seq<Byte>)

  type Address = a: RawAddress | a.V6? ==> |a.bytes| == 16 witness V4(0)

  datatype RawPrefix = Prefix(ip: Address, mask: nat)

  function Width(ip: Address): nat {
    if ip.V4? then 32 else 128
  }

  /** What the constructors accept; they throw on anything else. */
  type Prefix = p: RawPrefix | p.mask <= Width(p.ip) witness Prefix(V4(0), 0)

  // ---------------------------------------------------------------------------------------------
  // Words and bytes

  function Htonl(x: bv32): bv32 {
    (x << 24) | ((x & 0xFF00) << 8) | ((x >> 8) & 0xFF00) | (x >> 24)
  }

  function Byte0(x: bv32): Byte { (x & 0xFF) as bv8 }

  function Byte1(x: bv32): Byte { ((x >> 8) & 0xFF) as bv8 }

  function Byte2(x: bv32): Byte { ((x >> 16) & 0xFF) as bv8 }

  function Byte3(x: bv32): Byte { ((x >> 24) & 0xFF) as bv8 }

  /** The bytes of a word in memory order. */
  function WordBytes(x: bv32): (r: seq<Byte>)
    ensures |r| == 4
  {
    [Byte0(x), Byte1(x), Byte2(x), Byte3(x)]
  }

  function AddressBytes(a: Address): seq<Byte> {
    if a.V4? then WordBytes(a.word) else a.bytes
  }

  function HostMask(m: nat): bv32
    requires m <= 32
  {
    (((0xFFFF_FFFF as bv64) << (32 - m)) & 0xFFFF_FFFF) as bv32
  }

  function WordMask(m: nat): bv32
    requires m <= 32
  {
    Htonl(HostMask(m))
  }

  lemma WordInjective(x: bv32, y: bv32)
    requires WordBytes(x) == WordBytes(y)
    ensures x == y
  {
    assert WordBytes(x)[0] == WordBytes(y)[0] && WordBytes(x)[1] == WordBytes(y)[1];
    assert WordBytes(x)[2] == WordBytes(y)[2] && WordBytes(x)[3] == WordBytes(y)[3];
  }

  function And32(x: bv32, m: bv32): bv32 { x & m }

  function OrNot32(x: bv32, m: bv32): bv32 { x | !m }

  lemma ByteAnd(x: bv32, m: bv32)
    ensures Byte0(x & m) == Byte0(x) & Byte0(m) && Byte1(x & m) == Byte1(x) & Byte1(m)
    ensures Byte2(x & m) == Byte2(x) & Byte2(m) && Byte3(x & m) == Byte3(x) & Byte3(m)
  {
  }

  lemma ByteOrNot(x: bv32, m: bv32)
    ensures Byte0(x | !m) == Byte0(x) | !Byte0(m) && Byte1(x | !m) == Byte1(x) | !Byte1(m)
    ensures Byte2(x | !m) == Byte2(x) | !Byte2(m) && Byte3(x | !m) == Byte3(x) | !Byte3(m)
  {
  }

  lemma AndAt(x: seq<Byte>, m: seq<Byte>, i: nat)
    requires |x| == |m| && i < |x|
    ensures AndBytes(x, m)[i] == x[i] & m[i] && OrNotBytes(x, m)[i] == x[i] | !m[i]
  {
  }

  lemma FourEqual(x: seq<Byte>, y: seq<Byte>)
    requires |x| == |y| == 4 && x[0] == y[0] && x[1] == y[1] && x[2] == y[2] && x[3] == y[3]
    ensures x == y
  {
  }

  lemma WordAnd(x: bv32, m: bv32)
    ensures WordBytes(And32(x, m)) == AndBytes(WordBytes(x), WordBytes(m))
  {
    hide Byte0, Byte1, Byte2, Byte3, AndBytes, OrNotBytes;
    ByteAnd(x, m);
    var xs, ms := WordBytes(x), WordBytes(m);
    AndAt(xs, ms, 0);
    AndAt(xs, ms, 1);
    AndAt(xs, ms, 2);
    AndAt(xs, ms, 3);
    FourEqual(WordBytes(x & m), AndBytes(xs, ms));
  }

  lemma WordOrNot(x: bv32, m: bv32)
    ensures WordBytes(OrNot32(x, m)) == OrNotBytes(WordBytes(x), WordBytes(m))
  {
    hide Byte0, Byte1, Byte2, Byte3, AndBytes, OrNotBytes;
    ByteOrNot(x, m);
    var xs, ms := WordBytes(x), WordBytes(m);
    AndAt(xs, ms, 0);
    AndAt(xs, ms, 1);
    AndAt(xs, ms, 2);
    AndAt(xs, ms, 3);
    FourEqual(WordBytes(x | !m), OrNotBytes(xs, ms));
  }

  predicate Lt8(a: Byte, b: Byte) { a < b }

  predicate Lt32(u: bv32, v: bv32) { u < v }

  predicate Fits24(u: bv32) { u <= 0xFF_FFFF }

  function Widen(a: Byte): bv32 { a as bv32 }

  /** Appends a byte to a number of at most 24 bits. */
  function Join(u: bv32, a: Byte): bv32 { (u << 8) | (a as bv32) }

  lemma LessCons(x: seq<Byte>, y: seq<Byte>, i: nat)
    requires |x| == |y| && i < |x|
    ensures Less(x[i..], y[i..]) <==> if x[i] != y[i] then Lt8(x[i], y[i]) else Less(x[i + 1..], y[i + 1..])
  {
    assert x[i..][1..] == x[i + 1..] && y[i..][1..] == y[i + 1..];
  }

  lemma LessFour(x: seq<Byte>, y: seq<Byte>)
    requires |x| == |y| == 4
    ensures Less(x, y) <==>
              if x[0] != y[0] then Lt8(x[0], y[0])
              else if x[1] != y[1] then Lt8(x[1], y[1])
              else if x[2] != y[2] then Lt8(x[2], y[2])
              else x[3] != y[3] && Lt8(x[3], y[3])
  {
    assert !Less(x[4..], y[4..]);
    hide Less, Lt8;
    LessCons(x, y, 0);
    LessCons(x, y, 1);
    LessCons(x, y, 2);
    LessCons(x, y, 3);
    assert x[0..] == x && y[0..] == y;
  }

  lemma JoinBounds(a: Byte, b: Byte, c: Byte)
    ensures Fits24(Widen(a)) && Fits24(Join(Widen(a), b)) && Fits24(Join(Join(Widen(a), b), c))
  {
  }

  lemma WidenLess(a: Byte, b: Byte)
    requires Lt8(a, b)
    ensures Lt32(Widen(a), Widen(b))
  {
  }

  lemma JoinLess(u: bv32, v: bv32, a: Byte, b: Byte)
    requires Fits24(u) && Fits24(v) && Lt32(u, v)
    ensures Lt32(Join(u, a), Join(v, b))
  {
  }

  lemma JoinLast(u: bv32, a: Byte, b: Byte)
    requires Fits24(u) && Lt8(a, b)
    ensures Lt32(Join(u, a), Join(u, b))
  {
  }

  lemma HtonlJoin(x: bv32)
    ensures Htonl(x) == Join(Join(Join(Widen(Byte0(x)), Byte1(x)), Byte2(x)), Byte3(x))
  {
  }

  lemma HostLess(x: bv32, y: bv32)
    requires Less(WordBytes(x), WordBytes(y))
    ensures Lt32(Htonl(x), Htonl(y))
  {
    hide Byte0, Byte1, Byte2, Byte3, Htonl, Less, Join, Lt8, Lt32, Fits24, Widen;
    LessFour(WordBytes(x), WordBytes(y));
    HtonlJoin(x);
    HtonlJoin(y);
    JoinBounds(Byte0(x), Byte1(x), Byte2(x));
    JoinBounds(Byte0(y), Byte1(y), Byte2(y));
    var u1, v1 := Widen(Byte0(x)), Widen(Byte0(y));
    var u2, v2 := Join(u1, Byte1(x)), Join(v1, Byte1(y));
    var u3, v3 := Join(u2, Byte2(x)), Join(v2, Byte2(y));
    if Byte0(x) != Byte0(y) {
      WidenLess(Byte0(x), Byte0(y));
      JoinLess(u1, v1, Byte1(x), Byte1(y));
      JoinLess(u2, v2, Byte2(x), Byte2(y));
      JoinLess(u3, v3, Byte3(x), Byte3(y));
    } else if Byte1(x) != Byte1(y) {
      JoinLast(u1, Byte1(x), Byte1(y));
      JoinLess(u2, v2, Byte2(x), Byte2(y));
      JoinLess(u3, v3, Byte3(x), Byte3(y));
    } else if Byte2(x) != Byte2(y) {
      JoinLast(u2, Byte2(x), Byte2(y));
      JoinLess(u3, v3, Byte3(x), Byte3(y));
    } else {
      JoinLast(u3, Byte3(x), Byte3(y));
    }
  }

  /** Comparing the words in host order is comparing the bytes as `memcmp` does. */
  lemma WordOrder(x: bv32, y: bv32)
    ensures Htonl(x) < Htonl(y) <==> Less(WordBytes(x), WordBytes(y))
  {
    hide WordBytes, Htonl, Less;
    LessTotal(WordBytes(x), WordBytes(y));
    if Less(WordBytes(x), WordBytes(y)) {
      HostLess(x, y);
    } else if Less(WordBytes(y), WordBytes(x)) {
      HostLess(y, x);
    } else {
      WordInjective(x, y);
    }
  }

  /** The bytes of the IPv4 mask are the leading mask bytes. */
  lemma WordMaskBytes(m: nat)
    requires m <= 32
    ensures WordBytes(WordMask(m)) == MaskBytes(4, m)
  {
    hide MaskByte, MaskAt, WordMask, Byte0, Byte1, Byte2, Byte3;
    MaskAtKept(m, 0);
    MaskAtKept(m, 1);
    MaskAtKept(m, 2);
    MaskAtKept(m, 3);
    if m <= 8 {
      FirstOctet(m);
    } else if m <= 16 {
      SecondOctet(m);
    } else if m <= 24 {
      ThirdOctet(m);
    } else {
      FourthOctet(m);
    }
  }

  ghost predicate MaskOctets(m: nat)
    requires m <= 32
  {
    && Byte0(WordMask(m)) == MaskByte(Kept(m, 0)) && Byte1(WordMask(m)) == MaskByte(Kept(m, 1))
    && Byte2(WordMask(m)) == MaskByte(Kept(m, 2)) && Byte3(WordMask(m)) == MaskByte(Kept(m, 3))
  }

  lemma FirstOctet(m: nat)
    requires 0 <= m <= 8
    ensures MaskOctets(m)
  {
    MaskByteValues(0);
    MaskByteValues(8);
    MaskByteValues(m - 0);
    if m == 0 { assert HostMask(0) == 0x00000000; }
    else if m == 1 { assert HostMask(1) == 0x80000000; }
    else if m == 2 { assert HostMask(2) == 0xC0000000; }
    else if m == 3 { assert HostMask(3) == 0xE0000000; }
    else if m == 4 { assert HostMask(4) == 0xF0000000; }
    else if m == 5 { assert HostMask(5) == 0xF8000000; }
    else if m == 6 { assert HostMask(6) == 0xFC000000; }
    else if m == 7 { assert HostMask(7) == 0xFE000000; }
    else if m == 8 { assert HostMask(8) == 0xFF000000; }
  }

  lemma SecondOctet(m: nat)
    requires 9 <= m <= 16
    ensures MaskOctets(m)
  {
    MaskByteValues(0);
    MaskByteValues(8);
    MaskByteValues(m - 8);
    if m == 9 { assert HostMask(9) == 0xFF800000; }
    else if m == 10 { assert HostMask(10) == 0xFFC00000; }
    else if m == 11 { assert HostMask(11) == 0xFFE00000; }
    else if m == 12 { assert HostMask(12) == 0xFFF00000; }
    else if m == 13 { assert HostMask(13) == 0xFFF80000; }
    else if m == 14 { assert HostMask(14) == 0xFFFC0000; }
    else if m == 15 { assert HostMask(15) == 0xFFFE0000; }
    else if m == 16 { assert HostMask(16) == 0xFFFF0000; }
  }

  lemma ThirdOctet(m: nat)
    requires 17 <= m <= 24
    ensures MaskOctets(m)
  {
    MaskByteValues(0);
    MaskByteValues(8);
    MaskByteValues(m - 16);
    if m == 17 { assert HostMask(17) == 0xFFFF8000; }
    else if m == 18 { assert HostMask(18) == 0xFFFFC000; }
    else if m == 19 { assert HostMask(19) == 0xFFFFE000; }
    else if m == 20 { assert HostMask(20) == 0xFFFFF000; }
    else if m == 21 { assert HostMask(21) == 0xFFFFF800; }
    else if m == 22 { assert HostMask(22) == 0xFFFFFC00; }
    else if m == 23 { assert HostMask(23) == 0xFFFFFE00; }
    else if m == 24 { assert HostMask(24) == 0xFFFFFF00; }
  }

  lemma FourthOctet(m: nat)
    requires 25 <= m <= 32
    ensures MaskOctets(m)
  {
    MaskByteValues(0);
    MaskByteValues(8);
    MaskByteValues(m - 24);
    if m == 25 { assert HostMask(25) == 0xFFFFFF80; }
    else if m == 26 { assert HostMask(26) == 0xFFFFFFC0; }
    else if m == 27 { assert HostMask(27) == 0xFFFFFFE0; }
    else if m == 28 { assert HostMask(28) == 0xFFFFFFF0; }
    else if m == 29 { assert HostMask(29) == 0xFFFFFFF8; }
    else if m == 30 { assert HostMask(30) == 0xFFFFFFFC; }
    else if m == 31 { assert HostMask(31) == 0xFFFFFFFE; }
    else if m == 32 { assert HostMask(32) == 0xFFFFFFFF; }
  }

  // ---------------------------------------------------------------------------------------------
  // Prefix operations

  function Mask(p: Prefix): Address {
    if p.ip.V4? then V4(WordMask(p.mask)) else V6(MaskBytes(16, p.mask))
  }

  function Subnet(p: Prefix): Prefix {
    if p.ip.V4? then Prefix(V4(And32(p.ip.word, WordMask(p.mask))), p.mask)
    else Prefix(V6(AndBytes(p.ip.bytes, MaskBytes(16, p.mask))), p.mask)
  }

  function Broadcast(p: Prefix): Address {
    if p.ip.V4? then V4(OrNot32(p.ip.word, WordMask(p.mask))) else V6(OrNotBytes(p.ip.bytes, MaskBytes(16, p.mask)))
  }

  predicate InSubnet(p: Prefix, a: Address) {
    if p.ip.V4? then a.V4? && And32(p.ip.word, WordMask(p.mask)) == And32(a.word, WordMask(p.mask))
    else a.V6? && AndBytes(p.ip.bytes, MaskBytes(16, p.mask)) == AndBytes(a.bytes, MaskBytes(16, p.mask))
  }

  /** `operator<` on addresses: by family, then in network order. */
  predicate AddressLess(a: Address, b: Address) {
    if a.V4? != b.V4? then a.V4?
    else if a.V4? then Htonl(a.word) < Htonl(b.word)
    else Less(a.bytes, b.bytes)
  }

  predicate PrefixLess(p: Prefix, q: Prefix) {
    if p.mask != q.mask then p.mask < q.mask else AddressLess(p.ip, q.ip)
  }

  /** Both families in terms of bytes. */
  lemma PrefixBytes(p: Prefix, a: Address)
    ensures var x, m := AddressBytes(p.ip), MaskBytes(|AddressBytes(p.ip)|, p.mask);
            && 8 * |x| == Width(p.ip)
            && AddressBytes(Subnet(p).ip) == AndBytes(x, m)
            && AddressBytes(Broadcast(p)) == OrNotBytes(x, m)
            && (InSubnet(p, a) <==> a.V4? == p.ip.V4? && AndBytes(x, m) == AndBytes(AddressBytes(a), m))
  {
    hide WordMask, WordBytes, MaskBytes, AndBytes, OrNotBytes, And32, OrNot32;
    if p.ip.V4? {
      WordMaskBytes(p.mask);
      WordAnd(p.ip.word, WordMask(p.mask));
      WordOrNot(p.ip.word, WordMask(p.mask));
      if a.V4? {
        WordAnd(a.word, WordMask(p.mask));
        if WordBytes(And32(p.ip.word, WordMask(p.mask))) == WordBytes(And32(a.word, WordMask(p.mask))) {
          WordInjective(And32(p.ip.word, WordMask(p.mask)), And32(a.word, WordMask(p.mask)));
        }
      }
    }
  }

  /** An address is in the subnet exactly when it is of the family and its leading bits are those of the prefix. */
  lemma InSubnetBits(p: Prefix, a: Address)
    ensures InSubnet(p, a) <==>
              && a.V4? == p.ip.V4?
              && 8 * |AddressBytes(p.ip)| == 8 * |AddressBytes(a)| == Width(p.ip)
              && forall i | 0 <= i < p.mask :: BitAt(AddressBytes(p.ip), i) == BitAt(AddressBytes(a), i)
  {
    hide InSubnet, AddressBytes, BitAt, AndBytes, MaskBytes;
    PrefixBytes(p, a);
    PrefixBytes(Prefix(a, 0), a);
    if a.V4? == p.ip.V4? {
      MaskedBits(AddressBytes(p.ip), AddressBytes(a), p.mask);
    }
  }

  lemma AddressOrder(a: Address, b: Address)
    requires a.V4? == b.V4?
    ensures AddressLess(a, b) <==> Less(AddressBytes(a), AddressBytes(b))
  {
    hide Htonl, Less, WordBytes;
    if a.V4? {
      WordOrder(a.word, b.word);
    }
  }

  /** An address is in the subnet exactly when it lies between the subnet and the broadcast address. */
  lemma InSubnetInterval(p: Prefix, a: Address)
    ensures InSubnet(p, a) <==> !AddressLess(a, Subnet(p).ip) && !AddressLess(Broadcast(p), a)
  {
    hide InSubnet, AddressBytes, AndBytes, OrNotBytes, MaskBytes, Less, WordMask, Htonl, And32, OrNot32;
    PrefixBytes(p, a);
    if a.V4? == p.ip.V4? {
      PrefixBytes(Prefix(a, 0), a);
      hide AddressLess;
      var x, m := AddressBytes(p.ip), MaskBytes(|AddressBytes(p.ip)|, p.mask);
      AddressOrder(a, Subnet(p).ip);
      AddressOrder(Broadcast(p), a);
      MaskBytesPrefix(|x|, p.mask);
      Interval(x, AddressBytes(a), m);
    }
  }

  /** Two prefixes that share an address are nested. */
  lemma NestedOrDisjoint(p: Prefix, q: Prefix, shared: Address, a: Address)
    requires p.mask <= q.mask && InSubnet(p, shared) && InSubnet(q, shared) && InSubnet(q, a)
    ensures InSubnet(p, a)
  {
    hide InSubnet, AddressBytes, BitAt;
    InSubnetBits(p, shared);
    InSubnetBits(q, shared);
    InSubnetBits(q, a);
    InSubnetBits(p, a);
  }

  lemma AndTwice(x: seq<Byte>, m: seq<Byte>)
    requires |x| == |m|
    ensures AndBytes(AndBytes(x, m), m) == AndBytes(x, m)
  {
    forall i | 0 <= i < |x| ensures AndBytes(AndBytes(x, m), m)[i] == AndBytes(x, m)[i] {
      ByteTwice(x[i], m[i]);
    }
  }

  lemma ByteTwice(x: Byte, m: Byte)
    ensures (x & m) & m == x & m
  {
  }

  lemma WordTwice(x: bv32, m: bv32)
    ensures And32(And32(x, m), m) == And32(x, m)
  {
  }

  /** Taking the subnet twice is taking it once, and the subnet has the addresses of the prefix. */
  lemma SubnetIdempotent(p: Prefix, a: Address)
    ensures Subnet(Subnet(p)) == Subnet(p)
    ensures InSubnet(Subnet(p), a) <==> InSubnet(p, a)
  {
    hide WordMask, MaskBytes, AndBytes, And32;
    if p.ip.V4? {
      WordTwice(p.ip.word, WordMask(p.mask));
    } else {
      AndTwice(p.ip.bytes, MaskBytes(16, p.mask));
    }
  }

  /** A masked prefix holds an address exactly when it is the subnet of the address at its own length. */
  lemma SubnetOfAddress(p: Prefix, a: Address)
    requires Subnet(p) == p && a.V4? == p.ip.V4?
    ensures InSubnet(p, a) <==> Subnet(Prefix(a, p.mask)) == p
  {
    hide WordMask, MaskBytes, AndBytes, And32;
  }

  // ---------------------------------------------------------------------------------------------
  // The order of the maps

  lemma AddressBytesInjective(a: Address, b: Address)
    requires a.V4? == b.V4? && AddressBytes(a) == AddressBytes(b)
    ensures a == b
  {
    hide WordBytes;
    if a.V4? {
      WordInjective(a.word, b.word);
    }
  }

  /** `operator<` on prefixes: shorter ones first, then IPv4 before IPv6, then in the byte order of the address. */
  lemma PrefixOrderIs(p: Prefix, q: Prefix)
    ensures PrefixLess(p, q) <==>
              || p.mask < q.mask
              || (p.mask == q.mask && p.ip.V4? && q.ip.V6?)
              || (p.mask == q.mask && p.ip.V4? == q.ip.V4? && Less(AddressBytes(p.ip), AddressBytes(q.ip)))
  {
    hide AddressBytes, Less, Htonl;
    if p.ip.V4? == q.ip.V4? {
      AddressOrder(p.ip, q.ip);
      hide AddressLess;
    }
  }

  /** `operator<` on prefixes is a strict total order, so that two prefixes are equivalent under it exactly
      when they are equal. */
  lemma PrefixOrderTotal(p: Prefix, q: Prefix)
    ensures !(PrefixLess(p, q) && PrefixLess(q, p))
    ensures p != q <==> PrefixLess(p, q) || PrefixLess(q, p)
  {
    hide AddressBytes, Less, Htonl;
    if p.mask == q.mask && p.ip.V4? == q.ip.V4? {
      PrefixBytes(p, q.ip);
      PrefixBytes(q, p.ip);
      AddressOrder(p.ip, q.ip);
      AddressOrder(q.ip, p.ip);
      LessTotal(AddressBytes(p.ip), AddressBytes(q.ip));
      if AddressBytes(p.ip) == AddressBytes(q.ip) {
        AddressBytesInjective(p.ip, q.ip);
      }
    }
  }

  lemma PrefixOrderTransitive(p: Prefix, q: Prefix, r: Prefix)
    requires PrefixLess(p, q) && PrefixLess(q, r)
    ensures PrefixLess(p, r)
  {
    hide AddressBytes, Less, Htonl;
    if p.mask == q.mask == r.mask && p.ip.V4? == q.ip.V4? == r.ip.V4? {
      PrefixBytes(p, q.ip);
      PrefixBytes(q, p.ip);
      PrefixBytes(r, p.ip);
      AddressOrder(p.ip, q.ip);
      AddressOrder(q.ip, r.ip);
      AddressOrder(p.ip, r.ip);
      LessTransitive(AddressBytes(p.ip), AddressBytes(q.ip), AddressBytes(r.ip));
    }
  }

  // ---------------------------------------------------------------------------------------------
  // The operations as the source computes them

  method GetMask(p: Prefix) returns (a: Address)
    ensures a == Mask(p)
  {
    if p.ip.V4? {
      return V4(Htonl(HostMask(p.mask)));
    }
    var ipa := new Byte[16];
    var mid, bits := p.mask / 8, p.mask % 8;
    for i := 0 to mid
      invariant forall j | 0 <= j < i :: ipa[j] == 0xFF
    {
      ipa[i] := 0xFF;
    }
    if mid < 16 {
      ipa[mid] := MaskByte(bits);
      for i := mid + 1 to 16
        invariant forall j | 0 <= j < mid :: ipa[j] == 0xFF
        invariant ipa[mid] == MaskByte(bits)
        invariant forall j | mid < j < i :: ipa[j] == 0
      {
        ipa[i] := 0;
      }
    }
    assert ipa[..] == MaskBytes(16, p.mask);
    a := V6(ipa[..]);
  }

  method GetSubnet(p: Prefix) returns (r: Prefix)
    ensures r == Subnet(p)
  {
    var mask := GetMask(p);
    if p.ip.V4? {
      return Prefix(V4(And32(p.ip.word, mask.word)), p.mask);
    }
    hide MaskBytes;
    var subnet := new Byte[16](i requires 0 <= i < 16 => p.ip.bytes[i]);
    for i := 0 to 16
      invariant forall j | 0 <= j < i :: subnet[j] == p.ip.bytes[j] & mask.bytes[j]
      invariant forall j | i <= j < 16 :: subnet[j] == p.ip.bytes[j]
    {
      subnet[i] := subnet[i] & mask.bytes[i];
    }
    assert subnet[..] == AndBytes(p.ip.bytes, mask.bytes);
    r := Prefix(V6(subnet[..]), p.mask);
  }

  method GetBroadcastIp(p: Prefix) returns (a: Address)
    ensures a == Broadcast(p)
  {
    var mask := GetMask(p);
    if p.ip.V4? {
      return V4(OrNot32(p.ip.word, mask.word));
    }
    hide MaskBytes;
    var ipa := new Byte[16];
    for i := 0 to 16
      invariant forall j | 0 <= j < i :: ipa[j] == p.ip.bytes[j] | !mask.bytes[j]
    {
      ipa[i] := p.ip.bytes[i] | !mask.bytes[i];
    }
    assert ipa[..] == OrNotBytes(p.ip.bytes, mask.bytes);
    a := V6(ipa[..]);
  }

  lemma AndEqual(x: seq<Byte>, y: seq<Byte>, m: seq<Byte>)
    requires |x| == |y| == |m|
    ensures AndBytes(x, m) == AndBytes(y, m) <==> forall i | 0 <= i < |x| :: Agree(x[i], y[i], m[i])
  {
    hide AndBytes, OrNotBytes;
    forall i: nat | i < |x| ensures (AndBytes(x, m)[i] == AndBytes(y, m)[i]) == Agree(x[i], y[i], m[i]) {
      AndAt(x, m, i);
      AndAt(y, m, i);
    }
    hide Agree;
  }

  method IsAddressInSubnet(p: Prefix, a: Address) returns (r: bool)
    ensures r <==> InSubnet(p, a)
  {
    hide MaskBytes, AndBytes, WordMask, And32;
    if p.ip.V4? != a.V4? {
      return false;
    }
    var mask := GetMask(p);
    if p.ip.V4? {
      return And32(p.ip.word, mask.word) == And32(a.word, mask.word);
    }
    AndEqual(p.ip.bytes, a.bytes, mask.bytes);
    hide Agree;
    for i := 0 to 16
      invariant forall j | 0 <= j < i :: Agree(p.ip.bytes[j], a.bytes[j], mask.bytes[j])
    {
      if !Agree(p.ip.bytes[i], a.bytes[i], mask.bytes[i]) {
        return false;
      }
    }
    return true;
  }
}
