/** The heavy-flow sketch of the pipeline: per bucket a fingerprint register and a saturating counter of
    consecutive packets with that fingerprint, read as a function of the bucket's packet history. */
module Sketch {

  const BUCKETS: nat := 65536
  const HIT_COUNT: nat := 10

  datatype Reg = Reg(fp: nat, count: nat)

  /** The registers start at fingerprint 0 and count 1. */
  const INITIAL: Reg := Reg(0, 1)

  function SatInc(x: nat): nat {
    if x >= 255 then 255 else x + 1
  }

  /** The two register actions on one bucket. */
  function Touch(r: Reg, f: nat): Reg {
    if r.fp == f then Reg(f, SatInc(r.count)) else Reg(f, 1)
  }

  // ---------------------------------------------------------------------------------------------
  // A bucket's history

  /** The history of a bucket with a virtual packet of fingerprint 0 in front. */
  function Word(h: seq<nat>): (w: seq<nat>)
    ensures |w| == |h| + 1
  {
    [0] + h
  }

  /** Position `i` starts a block of equal fingerprints in `w`. */
  ghost predicate Starts(w: seq<nat>, i: int) {
    0 <= i < |w| && (i == 0 || w[i - 1] != w[i])
  }

  /** `w[i..j]` is a maximal run of equal fingerprints. */
  ghost predicate MaximalRun(w: seq<nat>, i: int, j: int) {
    && Starts(w, i) && i < j <= |w|
    && (forall t | i <= t < j :: w[t] == w[i])
    && (j == |w| || w[j] != w[i])
  }

  function Last(h: seq<nat>): nat {
    Word(h)[|h|]
  }

  /** The length of the run of equal fingerprints at the end of the history. */
  function RunLen(h: seq<nat>): (r: nat)
    ensures 1 <= r <= |h| + 1
  {
    if h != [] && Last(h) == Last(h[..|h| - 1]) then RunLen(h[..|h| - 1]) + 1 else 1
  }

  /** That run is the maximal run that ends the word. */
  lemma {:induction false} RunLenIsMaximal(h: seq<nat>)
    ensures MaximalRun(Word(h), |h| + 1 - RunLen(h), |h| + 1)
  {
    if h != [] {
      var g := h[..|h| - 1];
      RunLenIsMaximal(g);
      assert Word(g) == Word(h)[..|h|];
      var i := |g| + 1 - RunLen(g);
      assert forall t | i <= t <= |g| :: Word(g)[t] == Word(h)[t];
    }
  }

  function Min(a: nat, b: nat): nat {
    if a <= b then a else b
  }

  function RegOf(h: seq<nat>): Reg {
    Reg(Last(h), Min(255, RunLen(h)))
  }

  /** One packet takes the registers of a history to those of the longer history: the fingerprint is the last
      one seen, the counter the length of the trailing run, capped at 255. */
  lemma TouchExtends(h: seq<nat>, f: nat)
    ensures Touch(RegOf(h), f) == RegOf(h + [f])
    ensures RegOf([]) == INITIAL == Reg(0, 1)
  {
    assert (h + [f])[..|h + [f]| - 1] == h;
  }

  // ---------------------------------------------------------------------------------------------
  // Reports

  /** The packet at position `t` of the word raises the flag. */
  ghost predicate Flagged(h: seq<nat>, t: int) {
    1 <= t <= |h| && RegOf(h[..t]).count == HIT_COUNT
  }

  lemma RunLenInside(h: seq<nat>, i: int, j: int, t: int)
    requires MaximalRun(Word(h), i, j) && i <= t < j
    ensures RunLen(h[..t]) == t - i + 1
  {
    var g := h[..t];
    RunLenIsMaximal(g);
    var k := |g| + 1 - RunLen(g);
    assert Word(g) == Word(h)[..t + 1];
    assert Starts(Word(g), k) && Word(g)[k] == Word(h)[k];
    assert k == i;
  }

  /** In a maximal run the flag is raised at the tenth position and nowhere else, saturation or not. */
  lemma FlagOncePerRun(h: seq<nat>, i: int, j: int, t: int)
    requires MaximalRun(Word(h), i, j) && i <= t < j
    ensures Flagged(h, t) <==> t == i + 9
  {
    RunLenInside(h, i, j, t);
  }

  /** Equal fingerprints after a different one, on any history, raise the flag at the tenth and at no other. */
  lemma FreshRun(h: seq<nat>, f: nat, n: nat)
    requires Last(h) != f && n >= 1
    ensures Flagged(h + seq(n, _ => f), |h| + n) <==> n == 10
  {
    var g := h + seq(n, _ => f);
    assert g[..|h| + n] == g;
    assert Word(g)[|h|] == Last(h);
    assert MaximalRun(Word(g), |h| + 1, |h| + n + 1);
    FlagOncePerRun(g, |h| + 1, |h| + n + 1, |h| + n);
  }

  function FlagCount(h: seq<nat>): nat {
    if h == [] then 0 else FlagCount(h[..|h| - 1]) + if RunLen(h) == HIT_COUNT then 1 else 0
  }

  /** Ten packets pay for each report; the virtual packet pays for one of them once. */
  lemma {:induction false} ReportRate(h: seq<nat>)
    ensures 10 * FlagCount(h) + (if RunLen(h) < 10 then RunLen(h) else 0) <= |h| + 1
  {
    if h != [] {
      ReportRate(h[..|h| - 1]);
    }
  }

  // ---------------------------------------------------------------------------------------------
  // All buckets

  datatype Touching = Touching(bucket: nat, fp: nat)

  /** The fingerprints of the packets of one bucket, in order. */
  function History(trace: seq<Touching>, b: nat): seq<nat> {
    if trace == [] then []
    else
      var p := trace[|trace| - 1];
      History(trace[..|trace| - 1], b) + if p.bucket == b then [p.fp] else []
  }

  lemma HistoryStep(trace: seq<Touching>, p: Touching, b: nat)
    ensures History(trace + [p], b) == if p.bucket == b then History(trace, b) + [p.fp] else History(trace, b)
  {
    assert (trace + [p])[..|trace + [p]| - 1] == trace;
    assert History(trace, b) + [] == History(trace, b);
  }

  /** The registers of the control, with the trace they have seen. */
  class Registers {
    const fp: array<nat>
    const count: array<nat>
    ghost var trace: seq<Touching>

    ghost predicate Valid()
      reads this, fp, count
    {
      && fp != count && fp.Length == BUCKETS && count.Length == BUCKETS
      && forall b | 0 <= b < BUCKETS :: Reg(fp[b], count[b]) == RegOf(History(trace, b))
    }

    constructor ()
      ensures Valid() && trace == [] && fresh(fp) && fresh(count)
    {
      fp := new nat[BUCKETS](_ => 0);
      count := new nat[BUCKETS](_ => 1);
      trace := [];
      new;
      TouchExtends([], 0);
    }

    /** The apply block: returns `eflag`. The index is cast to 16 bits. */
    method Apply(index: nat, f: nat) returns (eflag: bool)
      requires Valid()
      modifies this, fp, count
      ensures Valid() && trace == old(trace) + [Touching(index % BUCKETS, f)]
      ensures eflag <==> RunLen(History(trace, index % BUCKETS)) == 10
    {
      var b := index % BUCKETS;
      ghost var h := History(trace, b);
      TouchExtends(h, f);
      var same := fp[b] == f;
      if !same {
        fp[b] := f;
      }
      if same {
        count[b] := SatInc(count[b]);
      } else {
        count[b] := 1;
      }
      eflag := count[b] == HIT_COUNT;
      forall c | 0 <= c < BUCKETS
        ensures History(trace + [Touching(b, f)], c) == if c == b then h + [f] else History(trace, c)
      {
        HistoryStep(trace, Touching(b, f), c);
      }
      hide History, RunLen, Last;
      trace := trace + [Touching(b, f)];
    }
  }
}
