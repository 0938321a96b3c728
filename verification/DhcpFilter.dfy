/**
 The socket filter of dhcpmon: a 25-instruction classic BPF program
 (src/dhcpmon/src/dhcp_device.cpp, lines 43-90), run by an interpreter in which a load outside the
 packet rejects, against the predicate it is meant to compute.
 */
module DhcpFilter {
  import opened Powers

  // A captured frame with the packet type the kernel keeps beside it.
  datatype Packet = Packet(bytes: seq<int>, pkttype: int) {
    predicate Valid() {
      (forall i :: 0 <= i < |bytes| ==> 0 <= bytes[i] < 256) && 0 <= pkttype < 8
    }
  }

  const PACKET_OUTGOING: int := 4
  // The ancillary load address of the packet type.
  const PKTTYPE: nat := 0xfffff004
  const ACCEPT: nat := 0x40000

  datatype Insn =
    | LdH(k: nat)                      // A := the half word at k
    | LdB(k: nat)                      // A := the byte at k
    | LdHInd(k: nat)                   // A := the half word at X + k
    | LdXMsh(k: nat)                   // X := 4 times the low nibble of the byte at k
    | JEq(jt: nat, jf: nat, k: nat)
    | JSet(jt: nat, jf: nat, k: nat)
    | Ret(k: nat)

  const program: seq<Insn> := [
    LdH(PKTTYPE),
    JEq(22, 0, 0x4),
    LdH(0xc),
    JEq(0, 7, 0x86dd),
    LdB(0x14),
    JEq(0, 18, 0x11),
    LdH(0x36),
    JEq(15, 0, 0x43),
    JEq(14, 0, 0x44),
    LdH(0x38),
    JEq(12, 11, 0x43),
    JEq(0, 12, 0x800),
    LdB(0x17),
    JEq(0, 10, 0x11),
    LdH(0x14),
    JSet(8, 0, 0x1fff),
    LdXMsh(0xe),
    LdHInd(0xe),
    JEq(4, 0, 0x43),
    JEq(3, 0, 0x44),
    LdHInd(0x10),
    JEq(1, 0, 0x43),
    JEq(0, 1, 0x44),
    Ret(ACCEPT),
    Ret(0)
  ]

  // ----- loads: -1 stands for a load outside the packet -----

  function Byte(p: Packet, k: int): int {
    if 0 <= k < |p.bytes| then p.bytes[k] else -1
  }

  function Half(p: Packet, k: int): int {
    if 0 <= k && k + 1 < |p.bytes| then 256 * p.bytes[k] + p.bytes[k + 1] else -1
  }

  function LoadHalf(p: Packet, k: int): int {
    if k == PKTTYPE then p.pkttype else Half(p, k)
  }

  // Bitwise and.
  function And(a: nat, b: nat): nat {
    if a == 0 || b == 0 then 0 else 2 * And(a / 2, b / 2) + (a % 2) * (b % 2)
  }

  // A mask of n low bits keeps the remainder.
  lemma {:induction false} AndMask(a: nat, n: nat, q: nat, r: nat)
    requires a == Pow2(n) * q + r && r < Pow2(n)
    ensures And(a, Pow2(n) - 1) == r
  {
    if n != 0 {
      var m := Pow2(n - 1);
      assert (2 * m) * q == 2 * (m * q);
      AndMask(a / 2, n - 1, q, r / 2);
    }
  }

  lemma FragmentMask(a: nat)
    ensures And(a, 0x1fff) == a % 0x2000
  {
    assert Pow2(13) == 0x2000;
    AndMask(a, 13, a / 0x2000, a % 0x2000);
  }

  // ----- the interpreter -----

  // Every jump from `pc` on stays inside the program, and it ends in a return.
  predicate Checked(prog: seq<Insn>, pc: nat)
    decreases |prog| - pc
  {
    pc < |prog| &&
    match prog[pc]
    case Ret(_) => pc + 1 == |prog| || Checked(prog, pc + 1)
    case JEq(jt, jf, _) => pc + 1 + jt < |prog| && pc + 1 + jf < |prog| && Checked(prog, pc + 1)
    case JSet(jt, jf, _) => pc + 1 + jt < |prog| && pc + 1 + jf < |prog| && Checked(prog, pc + 1)
    case _ => Checked(prog, pc + 1)
  }

  lemma {:induction false} CheckedLater(prog: seq<Insn>, pc: nat, later: nat)
    requires Checked(prog, pc) && pc <= later < |prog|
    ensures Checked(prog, later)
    decreases |prog| - pc
  {
    if pc < later {
      CheckedLater(prog, pc + 1, later);
    }
  }

  // The value the program returns from `pc` on, with accumulator a and index register x. Every jump
  // goes forward, so every checked program halts.
  function Exec(prog: seq<Insn>, p: Packet, pc: nat, a: nat, x: nat): int
    requires Checked(prog, pc) && p.Valid()
    decreases |prog| - pc
  {
    match prog[pc]
    case Ret(k) => k
    case LdH(k) => var v := LoadHalf(p, k); if v < 0 then 0 else Exec(prog, p, pc + 1, v, x)
    case LdB(k) => var v := Byte(p, k); if v < 0 then 0 else Exec(prog, p, pc + 1, v, x)
    case LdHInd(k) => var v := Half(p, x + k); if v < 0 then 0 else Exec(prog, p, pc + 1, v, x)
    case LdXMsh(k) => var v := Byte(p, k); if v < 0 then 0 else Exec(prog, p, pc + 1, a, 4 * (v % 16))
    case JEq(jt, jf, k) =>
      var next := pc + 1 + if a == k then jt else jf;
      CheckedLater(prog, pc, next);
      Exec(prog, p, next, a, x)
    case JSet(jt, jf, k) =>
      var next := pc + 1 + if And(a, k) != 0 then jt else jf;
      CheckedLater(prog, pc, next);
      Exec(prog, p, next, a, x)
  }

  // ----- the predicate -----

  predicate DhcpPort(port: int) {
    port == 67 || port == 68
  }

  // UDP over IPv6 with a DHCP port; a field that the packet is too short to hold is -1.
  predicate DhcpOverIpv6(p: Packet) {
    && Half(p, 12) == 0x86dd
    && Byte(p, 20) == 17
    && (DhcpPort(Half(p, 54)) || DhcpPort(Half(p, 56)))
  }

  // UDP over IPv4, first fragment, with a DHCP port behind a header of any length.
  predicate DhcpOverIpv4(p: Packet) {
    && Half(p, 12) == 0x800
    && Byte(p, 23) == 17
    && Half(p, 20) % 0x2000 == 0
    && var header := 4 * (Byte(p, 14) % 16);
    DhcpPort(Half(p, 14 + header)) || DhcpPort(Half(p, 16 + header))
  }

  predicate Wanted(p: Packet) {
    p.pkttype != PACKET_OUTGOING && (DhcpOverIpv6(p) || DhcpOverIpv4(p))
  }

  // ----- the program computes the predicate -----

  lemma ProgramChecked(pc: nat)
    requires pc < |program|
    ensures Checked(program, pc)
    decreases |program| - pc
  {
    if pc + 1 < |program| {
      ProgramChecked(pc + 1);
    }
  }

  // The program from `pc` on.
  function From(p: Packet, pc: nat, a: nat, x: nat): int
    requires p.Valid() && pc < |program|
  {
    ProgramChecked(pc);
    Exec(program, p, pc, a, x)
  }

  function Verdict(accepted: bool): int {
    if accepted then ACCEPT else 0
  }

  lemma AtReturns(p: Packet, a: nat, x: nat)
    requires p.Valid()
    ensures From(p, 23, a, x) == ACCEPT && From(p, 24, a, x) == 0
  {
  }

  // One jump on equality.
  lemma AtJEq(p: Packet, pc: nat, a: nat, x: nat)
    requires p.Valid() && pc < |program| && program[pc].JEq?
    ensures pc + 1 + program[pc].jt < |program| && pc + 1 + program[pc].jf < |program|
    ensures From(p, pc, a, x) == From(p, pc + 1 + if a == program[pc].k then program[pc].jt else program[pc].jf, a, x)
  {
    ProgramChecked(pc);
  }

  // One load into the accumulator.
  lemma AtLoad(p: Packet, pc: nat, a: nat, x: nat, v: int)
    requires p.Valid() && pc + 1 < |program|
    requires match program[pc]
             case LdH(k) => v == LoadHalf(p, k)
             case LdB(k) => v == Byte(p, k)
             case LdHInd(k) => v == Half(p, x + k)
             case _ => false
    ensures From(p, pc, a, x) == if v < 0 then 0 else From(p, pc + 1, v, x)
  {
    ProgramChecked(pc);
  }

  // The tail from 21 on decides on the last port.
  lemma AtLastPort(p: Packet, a: nat, x: nat)
    requires p.Valid()
    ensures From(p, 21, a, x) == Verdict(DhcpPort(a))
    ensures From(p, 22, a, x) == Verdict(a == 68)
  {
    AtReturns(p, a, x);
    AtJEq(p, 22, a, x);
    AtJEq(p, 21, a, x);
  }

  lemma AtIpv4Ports(p: Packet, a: nat, x: nat)
    requires p.Valid()
    ensures From(p, 17, a, x) == Verdict(DhcpPort(Half(p, 14 + x)) || DhcpPort(Half(p, 16 + x)))
  {
    var src, dst := Half(p, 14 + x), Half(p, 16 + x);
    AtLoad(p, 17, a, x, src);
    if 0 <= src {
      AtJEq(p, 18, src, x);
      AtJEq(p, 19, src, x);
      AtReturns(p, src, x);
      AtLoad(p, 20, src, x, dst);
      if 0 <= dst {
        AtLastPort(p, dst, x);
      }
    }
  }

  lemma AtIpv4(p: Packet, a: nat, x: nat)
    requires p.Valid() && a == Half(p, 12)
    ensures From(p, 11, a, x) == Verdict(DhcpOverIpv4(p))
  {
    AtJEq(p, 11, a, x);
    AtReturns(p, a, x);
    var protocol := Byte(p, 23);
    AtLoad(p, 12, a, x, protocol);
    if a == 0x800 && 0 <= protocol {
      AtJEq(p, 13, protocol, x);
      AtReturns(p, protocol, x);
      AtFragment(p, protocol, x);
    }
  }

  lemma AtJSet(p: Packet, a: nat, x: nat)
    requires p.Valid()
    ensures From(p, 15, a, x) == From(p, if And(a, 0x1fff) != 0 then 24 else 16, a, x)
  {
    ProgramChecked(15);
  }

  lemma AtHeader(p: Packet, a: nat, x: nat)
    requires p.Valid() && 0 <= Byte(p, 14)
    ensures From(p, 16, a, x) == From(p, 17, a, 4 * (Byte(p, 14) % 16))
  {
    ProgramChecked(16);
  }

  lemma AtFragment(p: Packet, a: nat, x: nat)
    requires p.Valid() && 0 <= Byte(p, 23)
    ensures From(p, 14, a, x)
         == var header := 4 * (Byte(p, 14) % 16);
            Verdict(Half(p, 20) % 0x2000 == 0 && (DhcpPort(Half(p, 14 + header)) || DhcpPort(Half(p, 16 + header))))
  {
    var fragment: nat := Half(p, 20);
    var header := 4 * (Byte(p, 14) % 16);
    AtLoad(p, 14, a, x, fragment);
    AtJSet(p, fragment, x);
    FragmentMask(fragment);
    AtHeader(p, fragment, x);
    AtReturns(p, fragment, x);
    AtIpv4Ports(p, fragment, header);
  }

  lemma AtIpv6Destination(p: Packet, a: nat, x: nat)
    requires p.Valid()
    ensures From(p, 9, a, x) == Verdict(DhcpPort(Half(p, 56)))
  {
    var dst := Half(p, 56);
    AtLoad(p, 9, a, x, dst);
    if 0 <= dst {
      AtJEq(p, 10, dst, x);
      AtReturns(p, dst, x);
      AtLastPort(p, dst, x);
    }
  }

  lemma AtIpv6Ports(p: Packet, a: nat, x: nat)
    requires p.Valid()
    ensures From(p, 6, a, x) == Verdict(DhcpPort(Half(p, 54)) || DhcpPort(Half(p, 56)))
  {
    var src := Half(p, 54);
    AtLoad(p, 6, a, x, src);
    if 0 <= src {
      AtJEq(p, 7, src, x);
      AtJEq(p, 8, src, x);
      AtReturns(p, src, x);
      AtIpv6Destination(p, src, x);
    }
  }

  lemma AtIpv6(p: Packet, a: nat, x: nat)
    requires p.Valid()
    ensures From(p, 4, a, x) == Verdict(Byte(p, 20) == 17 && (DhcpPort(Half(p, 54)) || DhcpPort(Half(p, 56))))
  {
    var protocol := Byte(p, 20);
    AtLoad(p, 4, a, x, protocol);
    if 0 <= protocol {
      AtJEq(p, 5, protocol, x);
      AtReturns(p, protocol, x);
      AtIpv6Ports(p, protocol, x);
    }
  }

  lemma AtEthertype(p: Packet, a: nat, x: nat)
    requires p.Valid()
    ensures From(p, 2, a, x) == Verdict(DhcpOverIpv6(p) || DhcpOverIpv4(p))
  {
    var ether := Half(p, 12);
    AtLoad(p, 2, a, x, ether);
    if 0 <= ether {
      AtJEq(p, 3, ether, x);
      AtIpv6(p, ether, x);
      AtIpv4(p, ether, x);
    }
  }

  // The filter accepts exactly the wanted packets, of every length and every header length.
  lemma FilterExact(p: Packet, a: nat, x: nat)
    requires p.Valid()
    ensures From(p, 0, a, x) == Verdict(Wanted(p))
  {
    AtLoad(p, 0, a, x, p.pkttype);
    AtJEq(p, 1, p.pkttype, x);
    AtReturns(p, p.pkttype, x);
    AtEthertype(p, p.pkttype, x);
  }
}
