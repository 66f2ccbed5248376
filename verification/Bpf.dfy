/** Classic BPF: the instructions the packet filter uses, a machine that runs them, the filter
    program, and what it decides. */
module Bpf {
  import opened Powers
  import opened ByteData

  datatype Register = RegA | RegX

  datatype Condition = JumpEqual | JumpBitsSet

  datatype Instruction =
    | LoadAbsolute(off: nat, size: nat)
    | LoadIndirect(off: nat, size: nat)
    | LoadMemShift(off: nat)
    | LoadConstant(dst: Register, val: nat)
    | AluAddX
    | Tax
    | Jump(skip: nat)
    | JumpIf(cond: Condition, val: nat, skipTrue: nat, skipFalse: nat)
    | RetConstant(val: nat)

  /** A run returns a value, or leaves the program without doing so. */
  datatype Outcome = Returned(val: nat) | Escaped

  predicate InRange(pkt: seq<Byte>, off: nat, size: nat) {
    off + size <= |pkt|
  }

  function Field(pkt: seq<Byte>, off: nat, size: nat): nat
    requires InRange(pkt, off, size)
  {
    Number(pkt[off..off + size])
  }

  predicate Holds(cond: Condition, a: nat, val: nat) {
    match cond
    case JumpEqual => a == val
    case JumpBitsSet => And(a, val) != 0
  }

  /** Running from instruction `pc` with the given registers. A load beyond the end of the packet
      ends the run with zero. Jumps only go forward. */
  function Run(prog: seq<Instruction>, pkt: seq<Byte>, pc: nat, a: nat, x: nat): Outcome
    decreases |prog| - pc
  {
    if pc >= |prog| then Escaped
    else
      match prog[pc]
      case LoadAbsolute(off, size) =>
        if InRange(pkt, off, size) then Run(prog, pkt, pc + 1, Field(pkt, off, size), x) else Returned(0)
      case LoadIndirect(off, size) =>
        if InRange(pkt, x + off, size) then Run(prog, pkt, pc + 1, Field(pkt, x + off, size), x) else Returned(0)
      case LoadMemShift(off) =>
        if InRange(pkt, off, 1) then Run(prog, pkt, pc + 1, a, 4 * And(pkt[off], 0xf)) else Returned(0)
      case LoadConstant(dst, val) =>
        if dst == RegA then Run(prog, pkt, pc + 1, val, x) else Run(prog, pkt, pc + 1, a, val)
      case AluAddX => Run(prog, pkt, pc + 1, (a + x) % WORD, x)
      case Tax => Run(prog, pkt, pc + 1, a, a)
      case Jump(skip) => Run(prog, pkt, pc + 1 + skip, a, x)
      case JumpIf(cond, val, skipTrue, skipFalse) =>
        Run(prog, pkt, pc + 1 + (if Holds(cond, a, val) then skipTrue else skipFalse), a, x)
      case RetConstant(val) => Returned(val)
  }

  /** The filter for UDP packets to `port` that carry a disco or a STUN message. */
  function Program(port: nat): seq<Instruction> {
    [
      LoadAbsolute(12, 2),
      JumpIf(JumpEqual, 0x86dd, 0, 4),
      LoadAbsolute(20, 1),
      JumpIf(JumpEqual, 0x11, 0, 18),
      LoadConstant(RegX, 14 + 40),
      Jump(9),
      JumpIf(JumpEqual, 0x800, 0, 15),
      LoadAbsolute(23, 1),
      JumpIf(JumpEqual, 0x11, 0, 13),
      LoadAbsolute(20, 2),
      JumpIf(JumpBitsSet, 0x1fff, 11, 0),
      LoadMemShift(14),
      LoadConstant(RegA, 14),
      AluAddX,
      Tax,
      LoadIndirect(2, 2),
      JumpIf(JumpEqual, port, 0, 5),
      LoadIndirect(8, 1),
      JumpIf(JumpBitsSet, 128, 2, 0),
      LoadIndirect(12, 4),
      JumpIf(JumpEqual, 0x2112a442, 0, 1),
      RetConstant(0x4_0000),
      RetConstant(0)
    ]
  }

  const ACCEPT: nat := 0x4_0000

  // ----- what the filter is for

  const ETHERNET := 14

  /** IPv6 (section 3 of RFC 8200) whose next header is UDP. */
  predicate IsUdp6(pkt: seq<Byte>) {
    && InRange(pkt, 12, 2) && Field(pkt, 12, 2) == 0x86dd
    && InRange(pkt, ETHERNET + 6, 1) && Field(pkt, ETHERNET + 6, 1) == 17
  }

  /** IPv4 (section 3.1 of RFC 791) carrying UDP, at fragment offset zero. */
  predicate IsUdp4(pkt: seq<Byte>) {
    && InRange(pkt, 12, 2) && Field(pkt, 12, 2) == 0x800
    && InRange(pkt, ETHERNET + 9, 1) && Field(pkt, ETHERNET + 9, 1) == 17
    && InRange(pkt, ETHERNET + 6, 2) && Field(pkt, ETHERNET + 6, 2) % 0x2000 == 0
  }

  /** Where the UDP header starts: after the fixed IPv6 header, or after as many 32-bit words as the
      IPv4 header says it has. */
  function UdpStart(pkt: seq<Byte>): nat
    requires IsUdp6(pkt) || IsUdp4(pkt)
  {
    if Field(pkt, 12, 2) == 0x86dd then ETHERNET + 40 else ETHERNET + 4 * (pkt[ETHERNET] % 16)
  }

  /** The UDP datagram at `u` goes to `port`, and its payload starts with a set bit or carries the
      magic cookie (section 6 of RFC 5389). */
  predicate Wanted(pkt: seq<Byte>, u: nat, port: nat) {
    && InRange(pkt, u + 2, 2) && Field(pkt, u + 2, 2) == port
    && InRange(pkt, u + 8, 1)
    && (pkt[u + 8] >= 128 || (InRange(pkt, u + 12, 4) && Field(pkt, u + 12, 4) == 0x2112a442))
  }

  predicate Accepts(pkt: seq<Byte>, port: nat) {
    (IsUdp6(pkt) || IsUdp4(pkt)) && Wanted(pkt, UdpStart(pkt), port)
  }

  // ----- the program decides this

  function Verdict(b: bool): Outcome {
    Returned(if b then ACCEPT else 0)
  }

  lemma OneByte(pkt: seq<Byte>, off: nat)
    requires InRange(pkt, off, 1)
    ensures Field(pkt, off, 1) == pkt[off]
  {
    var s := pkt[off..off + 1];
    assert s[..0] == [];
    assert Number(s[..0]) == 0;
  }

  lemma Ends(pkt: seq<Byte>, port: nat, a: nat, x: nat)
    ensures Run(Program(port), pkt, 21, a, x) == Returned(ACCEPT)
    ensures Run(Program(port), pkt, 22, a, x) == Returned(0)
  {
  }

  lemma FromCookie(pkt: seq<Byte>, port: nat, a: nat, x: nat)
    ensures Run(Program(port), pkt, 19, a, x)
         == Verdict(InRange(pkt, x + 12, 4) && Field(pkt, x + 12, 4) == 0x2112a442)
  {
    if InRange(pkt, x + 12, 4) {
      var f := Field(pkt, x + 12, 4);
      Ends(pkt, port, f, x);
      assert Run(Program(port), pkt, 20, f, x) == Verdict(f == 0x2112a442);
    }
  }

  lemma FromPayload(pkt: seq<Byte>, port: nat, a: nat, x: nat)
    ensures Run(Program(port), pkt, 17, a, x)
         == Verdict(InRange(pkt, x + 8, 1)
                    && (pkt[x + 8] >= 128 || (InRange(pkt, x + 12, 4) && Field(pkt, x + 12, 4) == 0x2112a442)))
  {
    if InRange(pkt, x + 8, 1) {
      var f := Field(pkt, x + 8, 1);
      OneByte(pkt, x + 8);
      AndTop(pkt[x + 8]);
      Ends(pkt, port, f, x);
      FromCookie(pkt, port, f, x);
      assert Run(Program(port), pkt, 18, f, x) == Run(Program(port), pkt, if f >= 128 then 21 else 19, f, x);
    }
  }

  lemma FromUdp(pkt: seq<Byte>, port: nat, a: nat, x: nat)
    ensures Run(Program(port), pkt, 15, a, x) == Verdict(Wanted(pkt, x, port))
  {
    if InRange(pkt, x + 2, 2) {
      var f := Field(pkt, x + 2, 2);
      FromPayload(pkt, port, f, x);
      Ends(pkt, port, f, x);
      assert Run(Program(port), pkt, 16, f, x) == Run(Program(port), pkt, if f == port then 17 else 22, f, x);
    }
  }

  lemma From6(pkt: seq<Byte>, port: nat, a: nat, x: nat)
    ensures Run(Program(port), pkt, 2, a, x)
         == Verdict(InRange(pkt, 20, 1) && Field(pkt, 20, 1) == 17 && Wanted(pkt, 54, port))
  {
    if InRange(pkt, 20, 1) {
      var f := Field(pkt, 20, 1);
      Ends(pkt, port, f, x);
      FromUdp(pkt, port, f, 54);
      assert Run(Program(port), pkt, 5, f, 54) == Run(Program(port), pkt, 15, f, 54);
      assert Run(Program(port), pkt, 4, f, x) == Run(Program(port), pkt, 5, f, 54);
      assert Run(Program(port), pkt, 3, f, x) == Run(Program(port), pkt, if f == 17 then 4 else 22, f, x);
    }
  }

  lemma FromHeaderLength(pkt: seq<Byte>, port: nat, a: nat, x: nat)
    requires InRange(pkt, 14, 1)
    ensures Run(Program(port), pkt, 11, a, x) == Verdict(Wanted(pkt, 14 + 4 * (pkt[14] % 16), port))
  {
    AndLow(pkt[14], 4);
    assert Pow2(4) == 16;
    var words := 4 * (pkt[14] % 16);
    FromUdp(pkt, port, 14 + words, 14 + words);
    assert Run(Program(port), pkt, 14, 14 + words, words) == Run(Program(port), pkt, 15, 14 + words, 14 + words);
    assert Run(Program(port), pkt, 13, 14, words) == Run(Program(port), pkt, 14, 14 + words, words);
    assert Run(Program(port), pkt, 12, a, words) == Run(Program(port), pkt, 13, 14, words);
  }

  /** The low 13 bits are the fragment offset. */
  lemma FragmentBits(f: nat)
    ensures And(f, 0x1fff) == f % 0x2000
  {
    AndLow(f, 13);
    assert Pow2(13) == 0x2000 by { assert Pow2(10) == 1024; }
  }

  lemma FromFragment(pkt: seq<Byte>, port: nat, a: nat, x: nat)
    requires InRange(pkt, 23, 1)
    ensures Run(Program(port), pkt, 9, a, x)
         == Verdict(Field(pkt, 20, 2) % 0x2000 == 0 && Wanted(pkt, 14 + 4 * (pkt[14] % 16), port))
  {
    var f := Field(pkt, 20, 2);
    FragmentBits(f);
    Ends(pkt, port, f, x);
    FromHeaderLength(pkt, port, f, x);
    assert Run(Program(port), pkt, 10, f, x)
        == Run(Program(port), pkt, if f % 0x2000 == 0 then 11 else 22, f, x);
  }

  lemma From4(pkt: seq<Byte>, port: nat, a: nat, x: nat)
    ensures Run(Program(port), pkt, 7, a, x)
         == Verdict(InRange(pkt, 23, 1) && Field(pkt, 23, 1) == 17
                    && Field(pkt, 20, 2) % 0x2000 == 0
                    && Wanted(pkt, 14 + 4 * (pkt[14] % 16), port))
  {
    if InRange(pkt, 23, 1) {
      var p := Field(pkt, 23, 1);
      Ends(pkt, port, p, x);
      FromFragment(pkt, port, p, x);
      assert Run(Program(port), pkt, 8, p, x) == Run(Program(port), pkt, if p == 17 then 9 else 22, p, x);
    }
  }

  /** For every packet and every port the program ends with a verdict, which is the one above. */
  lemma ProgramDecides(pkt: seq<Byte>, port: nat)
    requires port < 0x1_0000
    ensures Run(Program(port), pkt, 0, 0, 0) == Verdict(Accepts(pkt, port))
  {
    if InRange(pkt, 12, 2) {
      var f := Field(pkt, 12, 2);
      From6(pkt, port, f, 0);
      From4(pkt, port, f, 0);
      Ends(pkt, port, f, 0);
      assert Run(Program(port), pkt, 6, f, 0) == Run(Program(port), pkt, if f == 0x800 then 7 else 22, f, 0);
      assert Run(Program(port), pkt, 1, f, 0) == Run(Program(port), pkt, if f == 0x86dd then 2 else 6, f, 0);
    }
  }
}
