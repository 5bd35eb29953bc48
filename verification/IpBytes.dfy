/** Byte strings in network order: masks, bits and the order of `memcmp`. */
module IpBytes {

  type Byte = bv8

  /** The byte with the leading `b` bits set: `(uint8_t)(0xFF << (8 - b))`. */
  function MaskByte(b: nat): Byte
    requires b <= 8
  {
    (((0xFF as bv16) << (8 - b)) & 0xFF) as bv8
  }

  predicate IsMaskByte(m: Byte) {
    m in {0x00, 0x80, 0xC0, 0xE0, 0xF0, 0xF8, 0xFC, 0xFE, 0xFF}
  }

  lemma MaskByteValues(b: nat)
    requires b <= 8
    ensures MaskByte(b) == [0x00, 0x80, 0xC0, 0xE0, 0xF0, 0xF8, 0xFC, 0xFE, 0xFF][b] && IsMaskByte(MaskByte(b))
  {
    if b == 0 { assert MaskByte(0) == 0; }
    else if b == 1 { assert MaskByte(1) == 0x80; }
    else if b == 2 { assert MaskByte(2) == 0xC0; }
    else if b == 3 { assert MaskByte(3) == 0xE0; }
    else if b == 4 { assert MaskByte(4) == 0xF0; }
    else if b == 5 { assert MaskByte(5) == 0xF8; }
    else if b == 6 { assert MaskByte(6) == 0xFC; }
    else if b == 7 { assert MaskByte(7) == 0xFE; }
    else { assert MaskByte(8) == 0xFF; }
  }

  /** Bit `j` of a byte, the most significant first. */
  predicate Bit(x: Byte, j: nat)
    requires j < 8
  {
    (x << j) & 0x80 != 0
  }

  lemma BitValues(x: Byte)
    ensures Bit(x, 0) == (x & 0x80 != 0) && Bit(x, 1) == (x & 0x40 != 0) && Bit(x, 2) == (x & 0x20 != 0)
    ensures Bit(x, 3) == (x & 0x10 != 0) && Bit(x, 4) == (x & 0x08 != 0) && Bit(x, 5) == (x & 0x04 != 0)
    ensures Bit(x, 6) == (x & 0x02 != 0) && Bit(x, 7) == (x & 0x01 != 0)
  {
  }

  /** Masked bytes agree exactly when their leading bits do. */
  lemma ByteBits(x: Byte, y: Byte, b: nat)
    requires b <= 8
    ensures x & MaskByte(b) == y & MaskByte(b) <==> forall j | 0 <= j < b :: Bit(x, j) == Bit(y, j)
  {
    hide Bit, MaskByte, IsMaskByte;
    MaskByteValues(b);
    BitValues(x);
    BitValues(y);
  }

  predicate Agree(x: Byte, y: Byte, m: Byte) {
    x & m == y & m
  }

  predicate Between(x: Byte, y: Byte, m: Byte) {
    x & m <= y <= x | !m
  }

  /** Masked bytes agree exactly when one lies between the other with all free bits clear and all set. */
  lemma ByteInterval(x: Byte, y: Byte, m: Byte)
    requires IsMaskByte(m)
    ensures Agree(x, y, m) <==> Between(x, y, m)
  {
  }

  // ---------------------------------------------------------------------------------------------
  // Byte strings

  /** Byte `i` of the mask of length `m`. */
  function MaskAt(m: nat, i: nat): Byte {
    if i < m / 8 then 0xFF else if i == m / 8 then MaskByte(m % 8) else 0
  }

  function MaskBytes(n: nat, m: nat): (r: seq<Byte>)
    ensures |r| == n
  {
    seq(n, i requires i >= 0 => MaskAt(m, i))
  }

  function AndBytes(x: seq<Byte>, m: seq<Byte>): (r: seq<Byte>)
    requires |x| == |m|
    ensures |r| == |x|
  {
    seq(|x|, i requires 0 <= i < |x| => x[i] & m[i])
  }

  function OrNotBytes(x: seq<Byte>, m: seq<Byte>): (r: seq<Byte>)
    requires |x| == |m|
    ensures |r| == |x|
  {
    seq(|x|, i requires 0 <= i < |x| => x[i] | !m[i])
  }

  predicate BitAt(x: seq<Byte>, i: nat)
    requires i < 8 * |x|
  {
    Bit(x[i / 8], i % 8)
  }

  /** The order of `memcmp` on strings of equal length. */
  predicate Less(x: seq<Byte>, y: seq<Byte>) {
    x != [] && y != [] && if x[0] != y[0] then x[0] < y[0] else Less(x[1..], y[1..])
  }

  /** How many leading bits of byte `i` the mask of length `m` keeps. */
  function Kept(m: nat, i: nat): nat {
    if m >= 8 * i + 8 then 8 else if m <= 8 * i then 0 else m - 8 * i
  }

  lemma MaskAtKept(m: nat, i: nat)
    ensures Kept(m, i) <= 8 && MaskAt(m, i) == MaskByte(Kept(m, i)) && IsMaskByte(MaskAt(m, i))
  {
    MaskByteValues(0);
    MaskByteValues(8);
    MaskByteValues(Kept(m, i));
    hide MaskByte;
  }

  lemma BitOfBytes(x: seq<Byte>, y: seq<Byte>, m: nat, i: nat)
    requires |x| == |y| && i < m <= 8 * |x|
    requires x[i / 8] & MaskAt(m, i / 8) == y[i / 8] & MaskAt(m, i / 8)
    ensures BitAt(x, i) == BitAt(y, i)
  {
    hide MaskByte, Bit, MaskAt;
    MaskAtKept(m, i / 8);
    ByteBits(x[i / 8], y[i / 8], Kept(m, i / 8));
  }

  lemma ByteOfBits(x: seq<Byte>, y: seq<Byte>, m: nat, k: nat)
    requires |x| == |y| && k < |x| && m <= 8 * |x|
    requires forall i | 0 <= i < m :: BitAt(x, i) == BitAt(y, i)
    ensures x[k] & MaskAt(m, k) == y[k] & MaskAt(m, k)
  {
    hide MaskByte, Bit, MaskAt;
    MaskAtKept(m, k);
    forall j | 0 <= j < Kept(m, k) ensures Bit(x[k], j) == Bit(y[k], j) {
      assert BitAt(x, 8 * k + j) == BitAt(y, 8 * k + j);
    }
    ByteBits(x[k], y[k], Kept(m, k));
  }

  lemma MaskedAt(x: seq<Byte>, m: nat, k: nat)
    requires k < |x|
    ensures AndBytes(x, MaskBytes(|x|, m))[k] == x[k] & MaskAt(m, k)
  {
  }

  lemma MaskedToBits(x: seq<Byte>, y: seq<Byte>, m: nat)
    requires |x| == |y| && m <= 8 * |x|
    requires AndBytes(x, MaskBytes(|x|, m)) == AndBytes(y, MaskBytes(|x|, m))
    ensures forall i | 0 <= i < m :: BitAt(x, i) == BitAt(y, i)
  {
    hide BitAt, MaskAt, AndBytes, MaskBytes;
    forall i | 0 <= i < m ensures BitAt(x, i) == BitAt(y, i) {
      MaskedAt(x, m, i / 8);
      MaskedAt(y, m, i / 8);
      BitOfBytes(x, y, m, i);
    }
  }

  lemma BitsToMasked(x: seq<Byte>, y: seq<Byte>, m: nat)
    requires |x| == |y| && m <= 8 * |x|
    requires forall i | 0 <= i < m :: BitAt(x, i) == BitAt(y, i)
    ensures AndBytes(x, MaskBytes(|x|, m)) == AndBytes(y, MaskBytes(|x|, m))
  {
    hide BitAt, MaskAt;
    forall k | 0 <= k < |x| ensures x[k] & MaskAt(m, k) == y[k] & MaskAt(m, k) {
      ByteOfBits(x, y, m, k);
    }
  }

  /** Masked strings agree exactly when their leading `m` bits agree. */
  lemma MaskedBits(x: seq<Byte>, y: seq<Byte>, m: nat)
    requires |x| == |y| && m <= 8 * |x|
    ensures AndBytes(x, MaskBytes(|x|, m)) == AndBytes(y, MaskBytes(|x|, m))
       <==> forall i | 0 <= i < m :: BitAt(x, i) == BitAt(y, i)
  {
    hide BitAt, AndBytes, MaskBytes;
    if AndBytes(x, MaskBytes(|x|, m)) == AndBytes(y, MaskBytes(|x|, m)) {
      MaskedToBits(x, y, m);
    } else if forall i | 0 <= i < m :: BitAt(x, i) == BitAt(y, i) {
      BitsToMasked(x, y, m);
    }
  }

  // ---------------------------------------------------------------------------------------------
  // Intervals

  /** A mask as a byte string: ones, then at most one partial byte, then zeros. */
  ghost predicate PrefixMask(m: seq<Byte>) {
    && (forall i | 0 <= i < |m| :: IsMaskByte(m[i]))
    && (forall i, j | 0 <= i < j < |m| :: m[i] != 0xFF ==> m[j] == 0)
  }

  lemma MaskBytesPrefix(n: nat, m: nat)
    ensures PrefixMask(MaskBytes(n, m))
  {
    hide MaskByte, IsMaskByte;
    forall i | 0 <= i < n ensures IsMaskByte(MaskBytes(n, m)[i]) {
      MaskAtKept(m, i);
    }
  }

  lemma {:induction false} ZeroLeast(y: seq<Byte>, x: seq<Byte>)
    requires |x| == |y| && forall i | 0 <= i < |x| :: x[i] == 0
    ensures !Less(y, x)
  {
    if x != [] {
      ZeroLeast(y[1..], x[1..]);
    }
  }

  lemma {:induction false} OnesGreatest(x: seq<Byte>, y: seq<Byte>)
    requires |x| == |y| && forall i | 0 <= i < |x| :: x[i] == 0xFF
    ensures !Less(x, y)
  {
    if x != [] {
      OnesGreatest(x[1..], y[1..]);
    }
  }

  /** `y` lies between `lo` and `hi`. */
  predicate Within(y: seq<Byte>, lo: seq<Byte>, hi: seq<Byte>) {
    !Less(y, lo) && !Less(hi, y)
  }

  lemma WithinSameHead(y: seq<Byte>, lo: seq<Byte>, hi: seq<Byte>)
    requires |y| == |lo| == |hi| && y != [] && lo[0] == hi[0]
    ensures Within(y, lo, hi) <==> y[0] == lo[0] && Within(y[1..], lo[1..], hi[1..])
  {
  }

  lemma WithinFreeTail(y: seq<Byte>, lo: seq<Byte>, hi: seq<Byte>)
    requires |y| == |lo| == |hi| && y != [] && Within(y[1..], lo[1..], hi[1..])
    ensures Within(y, lo, hi) <==> lo[0] <= y[0] <= hi[0]
  {
  }

  lemma OnesMask(x: Byte)
    ensures x & 0xFF == x && x | !0xFF == x
  {
  }

  /** A string agrees with `x` under the mask exactly when it lies between `x` with the free bits clear and
      `x` with the free bits set. */
  lemma {:induction false} Interval(x: seq<Byte>, y: seq<Byte>, m: seq<Byte>)
    requires |x| == |y| == |m| && PrefixMask(m)
    ensures AndBytes(x, m) == AndBytes(y, m) <==> Within(y, AndBytes(x, m), OrNotBytes(x, m))
  {
    hide AndBytes, OrNotBytes, IsMaskByte, Within, Less, PrefixMask;
    if x == [] {
      NoBytes(x, y, m);
    } else {
      PrefixMaskParts(m);
      if m[0] == 0xFF {
        Interval(x[1..], y[1..], m[1..]);
        IntervalOnes(x, y, m);
      } else {
        IntervalFree(x, y, m);
      }
    }
  }

  lemma PrefixMaskParts(m: seq<Byte>)
    requires PrefixMask(m) && m != []
    ensures IsMaskByte(m[0]) && PrefixMask(m[1..]) && (m[0] != 0xFF ==> forall i | 0 < i < |m| :: m[i] == 0)
  {
    hide IsMaskByte;
  }

  lemma IntervalOnes(x: seq<Byte>, y: seq<Byte>, m: seq<Byte>)
    requires |x| == |y| == |m| && x != [] && m[0] == 0xFF
    requires AndBytes(x[1..], m[1..]) == AndBytes(y[1..], m[1..])
        <==> Within(y[1..], AndBytes(x[1..], m[1..]), OrNotBytes(x[1..], m[1..]))
    ensures AndBytes(x, m) == AndBytes(y, m) <==> Within(y, AndBytes(x, m), OrNotBytes(x, m))
  {
    hide AndBytes, OrNotBytes, Within;
    TailOps(x, m);
    AndCons(x, y, m);
    OnesMask(x[0]);
    OnesMask(y[0]);
    WithinSameHead(y, AndBytes(x, m), OrNotBytes(x, m));
  }

  lemma IntervalFree(x: seq<Byte>, y: seq<Byte>, m: seq<Byte>)
    requires |x| == |y| == |m| && x != [] && IsMaskByte(m[0]) && forall i | 0 < i < |m| :: m[i] == 0
    ensures AndBytes(x, m) == AndBytes(y, m) <==> Within(y, AndBytes(x, m), OrNotBytes(x, m))
  {
    hide *;
    ByteInterval(x[0], y[0], m[0]);
    FreeAgree(x, y, m);
    FreeBetween(x, y, m);
  }

  lemma FreeAgree(x: seq<Byte>, y: seq<Byte>, m: seq<Byte>)
    requires |x| == |y| == |m| && x != [] && forall i | 0 < i < |m| :: m[i] == 0
    ensures AndBytes(x, m) == AndBytes(y, m) <==> Agree(x[0], y[0], m[0])
  {
    hide AndBytes, OrNotBytes, Within;
    AndCons(x, y, m);
    FreeTail(x, y, m);
  }

  lemma FreeBetween(x: seq<Byte>, y: seq<Byte>, m: seq<Byte>)
    requires |x| == |y| == |m| && x != [] && forall i | 0 < i < |m| :: m[i] == 0
    ensures Within(y, AndBytes(x, m), OrNotBytes(x, m)) <==> Between(x[0], y[0], m[0])
  {
    hide AndBytes, OrNotBytes, Within, Between, Less;
    FreeTail(x, y, m);
    WithinFreeTail(y, AndBytes(x, m), OrNotBytes(x, m));
    HeadBetween(x, y, m);
  }

  lemma HeadBetween(x: seq<Byte>, y: seq<Byte>, m: seq<Byte>)
    requires |x| == |y| == |m| && x != []
    ensures AndBytes(x, m)[0] <= y[0] <= OrNotBytes(x, m)[0] <==> Between(x[0], y[0], m[0])
  {
    hide AndBytes, OrNotBytes;
    TailOps(x, m);
  }

  lemma FreeTail(x: seq<Byte>, y: seq<Byte>, m: seq<Byte>)
    requires |x| == |y| == |m| && x != [] && forall i | 0 < i < |m| :: m[i] == 0
    ensures Within(y[1..], AndBytes(x, m)[1..], OrNotBytes(x, m)[1..])
    ensures AndBytes(x[1..], m[1..]) == AndBytes(y[1..], m[1..])
  {
    ZeroTail(x, m);
    ZeroTail(y, m);
    TailOps(x, m);
    TailOps(y, m);
    hide AndBytes, OrNotBytes, Less;
    ZeroLeast(y[1..], AndBytes(x, m)[1..]);
    OnesGreatest(OrNotBytes(x, m)[1..], y[1..]);
  }

  lemma NoBytes(x: seq<Byte>, y: seq<Byte>, m: seq<Byte>)
    requires |x| == |y| == |m| == 0
    ensures AndBytes(x, m) == AndBytes(y, m) && Within(y, AndBytes(x, m), OrNotBytes(x, m))
  {
  }

  lemma ZeroTail(x: seq<Byte>, m: seq<Byte>)
    requires |x| == |m| && x != [] && forall i | 0 < i < |m| :: m[i] == 0
    ensures AndBytes(x, m)[1..] == seq(|x| - 1, _ => 0)
    ensures forall i | 0 <= i < |x| - 1 :: OrNotBytes(x, m)[1..][i] == 0xFF
  {
  }

  lemma TailOps(x: seq<Byte>, m: seq<Byte>)
    requires |x| == |m| && x != []
    ensures AndBytes(x, m)[1..] == AndBytes(x[1..], m[1..]) && OrNotBytes(x, m)[1..] == OrNotBytes(x[1..], m[1..])
    ensures AndBytes(x, m)[0] == x[0] & m[0] && OrNotBytes(x, m)[0] == x[0] | !m[0]
  {
  }

  lemma AndCons(x: seq<Byte>, y: seq<Byte>, m: seq<Byte>)
    requires |x| == |y| == |m| && x != []
    ensures AndBytes(x, m) == AndBytes(y, m)
       <==> x[0] & m[0] == y[0] & m[0] && AndBytes(x[1..], m[1..]) == AndBytes(y[1..], m[1..])
  {
    TailOps(x, m);
    TailOps(y, m);
    hide AndBytes, OrNotBytes;
    ConsEqual(AndBytes(x, m), AndBytes(y, m));
  }

  lemma ConsEqual(u: seq<Byte>, v: seq<Byte>)
    requires |u| == |v| && u != []
    ensures u == v <==> u[0] == v[0] && u[1..] == v[1..]
  {
    assert u == [u[0]] + u[1..] && v == [v[0]] + v[1..];
  }

  // ---------------------------------------------------------------------------------------------
  // The order

  lemma {:induction false} LessTotal(x: seq<Byte>, y: seq<Byte>)
    requires |x| == |y|
    ensures !(Less(x, y) && Less(y, x)) && (x != y <==> Less(x, y) || Less(y, x))
  {
    if x != [] {
      LessTotal(x[1..], y[1..]);
      ConsEqual(x, y);
    }
  }

  lemma {:induction false} LessTransitive(x: seq<Byte>, y: seq<Byte>, z: seq<Byte>)
    requires |x| == |y| == |z| && Less(x, y) && Less(y, z)
    ensures Less(x, z)
  {
    if x[0] == y[0] == z[0] {
      LessTransitive(x[1..], y[1..], z[1..]);
    }
  }
}
