/** The classic BPF program that the agent attaches to its raw socket, run by a small-step interpreter. */
module Bpf {
  import opened Powers

  const IPPROTO_UDP: nat := 17
  const VXLAN_PORT: nat := 4789

  type Packet = p: seq<nat> | forall b <- p :: b < 256 witness []

  datatype Insn =
    | LdAbsB(k: nat)                        // A := byte at k
    | LdAbsH(k: nat)                        // A := big-endian half-word at k
    | LdIndH(k: nat)                        // A := big-endian half-word at X + k
    | LdxMsh(k: nat)                        // X := 4 * (byte at k & 0xf)
    | JmpEq(k: nat, jt: nat, jf: nat)       // skip jt instructions if A == k, else jf
    | JmpSet(k: nat, jt: nat, jf: nat)      // skip jt instructions if A & k != 0, else jf
    | Ret(k: nat)

  datatype Machine = Running(pc: nat, a: nat, x: nat) | Done(bytes: nat)

  function And(a: nat, b: nat): nat {
    if a == 0 || b == 0 then 0 else 2 * And(a / 2, b / 2) + (a % 2) * (b % 2)
  }

  function Half(p: Packet, i: nat): nat
    requires i + 2 <= |p|
  {
    256 * p[i] + p[i + 1]
  }

  /** One instruction. A load outside the packet rejects it. */
  function Step(prog: seq<Insn>, p: Packet, m: Machine): Machine {
    if m.Done? then m
    else if m.pc >= |prog| then Done(0)
    else
      match prog[m.pc]
      case LdAbsB(k) => if k < |p| then Running(m.pc + 1, p[k], m.x) else Done(0)
      case LdAbsH(k) => if k + 2 <= |p| then Running(m.pc + 1, Half(p, k), m.x) else Done(0)
      case LdIndH(k) => if m.x + k + 2 <= |p| then Running(m.pc + 1, Half(p, m.x + k), m.x) else Done(0)
      case LdxMsh(k) => if k < |p| then Running(m.pc + 1, m.a, 4 * And(p[k], 0xf)) else Done(0)
      case JmpEq(k, jt, jf) => Running(m.pc + 1 + (if m.a == k then jt else jf), m.a, m.x)
      case JmpSet(k, jt, jf) => Running(m.pc + 1 + (if And(m.a, k) != 0 then jt else jf), m.a, m.x)
      case Ret(k) => Done(k)
  }

  function Run(prog: seq<Insn>, p: Packet, m: Machine, n: nat): Machine
    decreases n
  {
    if n == 0 then m else Run(prog, p, Step(prog, p, m), n - 1)
  }

  // ---------------------------------------------------------------------------------------------
  // Termination

  /** Jumps go forward and stay inside the program, which ends in a return. */
  predicate WellFormed(prog: seq<Insn>) {
    && prog != [] && prog[|prog| - 1].Ret?
    && forall i | 0 <= i < |prog| ::
         prog[i].JmpEq? || prog[i].JmpSet? ==> i + 1 + prog[i].jt < |prog| && i + 1 + prog[i].jf < |prog|
  }

  lemma {:induction false} RunDone(prog: seq<Insn>, p: Packet, m: Machine, n: nat)
    requires m.Done?
    ensures Run(prog, p, m, n) == m
  {
    if n > 0 {
      RunDone(prog, p, m, n - 1);
    }
  }

  /** A well-formed program returns within as many steps as it has instructions, on every packet and from
      every register contents. */
  lemma {:induction false} Terminates(prog: seq<Insn>, p: Packet, m: Machine, n: nat)
    requires WellFormed(prog)
    requires m.Running? ==> m.pc < |prog| && n >= |prog| - m.pc
    ensures Run(prog, p, m, n).Done?
    decreases n
  {
    if m.Done? {
      RunDone(prog, p, m, n);
    } else {
      Terminates(prog, p, Step(prog, p, m), n - 1);
    }
  }

  // ---------------------------------------------------------------------------------------------
  // The VXLAN filter

  const INSNS: seq<Insn> := [
    LdAbsB(9),
    JmpEq(IPPROTO_UDP, 0, 6),
    LdAbsH(6),
    JmpSet(0x1fff, 4, 0),
    LdxMsh(0),
    LdIndH(2),
    JmpEq(VXLAN_PORT, 0, 1),
    Ret(0x7fff_ffff),
    Ret(0)]

  /** The header length field counts 32-bit words and is the low half of the first byte. */
  function HeaderLength(p: Packet): nat
    requires |p| > 9
  {
    4 * (p[0] % 16)
  }

  /** An unfragmented or first-fragment UDP datagram to the VXLAN port whose port field is captured, byte by byte:
      protocol 17, the 13 bits of the fragment offset clear, and 4789 in network order as the second half-word
      behind the header. */
  predicate IsVxlan(p: Packet) {
    && |p| > 9
    && p[9] == 17
    && p[6] % 32 == 0 && p[7] == 0
    && HeaderLength(p) + 4 <= |p|
    && p[HeaderLength(p) + 2] == 0x12 && p[HeaderLength(p) + 3] == 0xB5
  }

  /** The two half-words that the program loads, in terms of bytes. */
  lemma HalfWords(p: Packet, i: nat)
    requires i + 2 <= |p|
    ensures Half(p, i) % 0x2000 == 0 <==> p[i] % 32 == 0 && p[i + 1] == 0
    ensures Half(p, i) == VXLAN_PORT <==> p[i] == 0x12 && p[i + 1] == 0xB5
  {
    assert p[i] in p && p[i + 1] in p;
    var a, b := p[i], p[i + 1];
    assert 256 * a + b == 0x2000 * (a / 32) + 256 * (a % 32) + b;
  }

  /** Masking with `n` one bits is the remainder by the power of two. */
  lemma {:induction false} AndMask(a: nat, n: nat)
    ensures And(a, Pow2(n) - 1) == a % Pow2(n)
  {
    if n > 0 {
      AndMask(a / 2, n - 1);
      var q := Pow2(n - 1);
      assert (2 * q - 1) / 2 == q - 1;
      DivModStep(a, q);
    }
  }

  lemma MaskValues()
    ensures Pow2(4) - 1 == 0xf && Pow2(13) - 1 == 0x1fff
  {
    assert Pow2(5) == 32;
    assert Pow2(9) == 512;
  }

  lemma RunStep(p: Packet, m: Machine, n: nat)
    requires n > 0
    ensures Run(INSNS, p, m, n) == Run(INSNS, p, Step(INSNS, p, m), n - 1)
  {
  }

  /** The filter accepts exactly the VXLAN datagrams, on byte sequences of every length. */
  lemma FilterCorrect(p: Packet)
    ensures Run(INSNS, p, Running(0, 0, 0), |INSNS|) == Done(if IsVxlan(p) then 0x7fff_ffff else 0)
  {
    assert WellFormed(INSNS);
    if |p| > 9 && p[9] == IPPROTO_UDP {
      MaskValues();
      HalfWords(p, 6);
      AndMask(Half(p, 6), 13);
      AndMask(p[0], 4);
      hide And, Half, Pow2;
      var m1 := Step(INSNS, p, Running(0, 0, 0));
      var m2 := Step(INSNS, p, m1);
      var m3 := Step(INSNS, p, m2);
      var m4 := Step(INSNS, p, m3);
      FilterTail(p, m4);
      RunStep(p, Running(0, 0, 0), 9);
      RunStep(p, m1, 8);
      RunStep(p, m2, 7);
      RunStep(p, m3, 6);
    } else {
      var m1 := Step(INSNS, p, Running(0, 0, 0));
      var m2 := Step(INSNS, p, m1);
      var m3 := Step(INSNS, p, m2);
      RunStep(p, Running(0, 0, 0), 9);
      RunStep(p, m1, 8);
      RunStep(p, m2, 7);
      RunDone(INSNS, p, m3, 6);
    }
  }

  /** From the fragment test on. */
  lemma FilterTail(p: Packet, m: Machine)
    requires |p| > 9 && p[9] == IPPROTO_UDP && And(p[0], 0xf) == p[0] % 16
    requires m == Running(if p[6] % 32 == 0 && p[7] == 0 then 4 else 8, Half(p, 6), 0)
    ensures Run(INSNS, p, m, 5) == Done(if IsVxlan(p) then 0x7fff_ffff else 0)
  {
    if HeaderLength(p) + 4 <= |p| {
      HalfWords(p, HeaderLength(p) + 2);
    }
    hide And, Half;
    var m5 := Step(INSNS, p, m);
    var m6 := Step(INSNS, p, m5);
    var m7 := Step(INSNS, p, m6);
    var m8 := Step(INSNS, p, m7);
    RunStep(p, m, 5);
    RunStep(p, m5, 4);
    RunStep(p, m6, 3);
    RunStep(p, m7, 2);
    RunDone(INSNS, p, m8, 1);
  }
}
