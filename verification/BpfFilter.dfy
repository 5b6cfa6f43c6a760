/** The packet filter that installFilter of src/17-25-bpf.c hands to the kernel. */
module BpfFilter {
  import opened Common
  import opened Bits

  const ETHERTYPE_IP := 0x0800
  const IP_HEADER := 14

  /** The operations the filter uses; jumps are relative to the next instruction. */
  datatype Insn =
    | LoadHalf(k: nat)            // A := two bytes at k
    | LoadByte(k: nat)            // A := the byte at k
    | LoadHalfAtX(k: nat)         // A := two bytes at X + k
    | LoadHeaderLength(k: nat)    // X := 4 * (the low four bits of the byte at k)
    | JumpEqual(k: nat, jt: nat, jf: nat)
    | JumpSet(k: nat, jt: nat, jf: nat)
    | Return(k: nat)

  function Filter(protocol: byte, port: nat): seq<Insn> {
    [ LoadHalf(6 + 6),
      JumpEqual(ETHERTYPE_IP, 0, 10),
      LoadByte(23),
      JumpEqual(protocol, 0, 8),
      LoadHalf(20),
      JumpSet(0x1fff, 6, 0),
      LoadHeaderLength(IP_HEADER),
      LoadHalfAtX(IP_HEADER),
      JumpEqual(port, 2, 0),
      LoadHalfAtX(IP_HEADER + 2),
      JumpEqual(port, 0, 1),
      Return(TWO32 - 1),
      Return(0) ]
  }

  /** The registers and the program counter; a run ends with a value. */
  datatype State = At(pc: nat, a: nat, x: nat) | Done(value: nat)

  function Half(packet: seq<byte>, i: nat): nat
    requires i + 2 <= |packet|
  {
    (packet[i] as int) * 256 + packet[i + 1]
  }

  /** One instruction; a load outside the packet ends the run with 0. */
  function Step(prog: seq<Insn>, packet: seq<byte>, s: State): State
    requires s.At? && s.pc < |prog|
  {
    var next := s.pc + 1;
    match prog[s.pc]
    case LoadHalf(k) => if k + 2 <= |packet| then At(next, Half(packet, k), s.x) else Done(0)
    case LoadByte(k) => if k < |packet| then At(next, packet[k], s.x) else Done(0)
    case LoadHalfAtX(k) => if s.x + k + 2 <= |packet| then At(next, Half(packet, s.x + k), s.x) else Done(0)
    case LoadHeaderLength(k) => if k < |packet| then At(next, s.a, 4 * And(packet[k], 0x0f)) else Done(0)
    case JumpEqual(k, jt, jf) => At(next + (if s.a == k then jt else jf), s.a, s.x)
    case JumpSet(k, jt, jf) => At(next + (if And(s.a, k) != 0 then jt else jf), s.a, s.x)
    case Return(k) => Done(k)
  }

  /** Every jump goes forward, so a run takes at most as many steps as there are instructions. */
  function Run(prog: seq<Insn>, packet: seq<byte>, s: State): nat
    decreases if s.At? && s.pc < |prog| then |prog| - s.pc else 0
  {
    match s
    case Done(v) => v
    case At(pc, _, _) => if pc < |prog| then Run(prog, packet, Step(prog, packet, s)) else 0
  }

  /** A port in two bytes, the high one first. */
  predicate PortAt(packet: seq<byte>, i: nat, port: nat) {
    i + 2 <= |packet| && packet[i] == port / 256 && packet[i + 1] == port % 256
  }

  /**
   * What the comments in the source promise, byte by byte: ethertype 0x0800, the protocol, 13 clear bits of
   * fragment offset, and one of the ports behind a header of as many words as its first byte says.
   */
  predicate Wanted(packet: seq<byte>, protocol: byte, port: nat) {
    && 24 <= |packet|
    && packet[12] == 0x08 && packet[13] == 0x00
    && packet[23] == protocol
    && packet[20] % 32 == 0 && packet[21] == 0
    && var h := packet[14] % 16 * 4;
       h + 16 <= |packet| && (PortAt(packet, 14 + h, port) || PortAt(packet, 16 + h, port))
  }

  /** Two bytes read at once. */
  lemma HalfIs(packet: seq<byte>, i: nat, v: nat)
    requires i + 2 <= |packet| && v < 0x10000
    ensures Half(packet, i) == v <==> packet[i] == v / 256 && packet[i + 1] == v % 256
    ensures Half(packet, i) % 0x2000 == 0 <==> packet[i] % 32 == 0 && packet[i + 1] == 0
  {
  }

  lemma RunStep(prog: seq<Insn>, packet: seq<byte>, s: State)
    requires s.At? && s.pc < |prog|
    ensures Run(prog, packet, s) == Run(prog, packet, Step(prog, packet, s))
  {
  }

  lemma Masks(b: nat, c: nat)
    ensures And(b, 0x0f) == b % 16
    ensures And(c, 0x1fff) == c % 0x2000
  {
    hide And, Low, Shl, Shr;
    Nibbles(b);
    Shl13(1);
    AndMask(c, 13);
    HighAndLow(c, 13);
    Shl13(Shr(c, 13));
  }

  lemma Shl13(y: nat)
    ensures Shl(y, 13) == 0x2000 * y
  {
  }

  /** The port comparisons at the end, and the two ways to return. */
  lemma RunPorts(packet: seq<byte>, protocol: byte, port: nat, a: nat, x: nat)
    ensures var p := Filter(protocol, port);
            Run(p, packet, At(7, a, x)) ==
            if x + 16 <= |packet|
               && (Half(packet, 14 + x) == port || (x + 18 <= |packet| && Half(packet, 16 + x) == port))
            then TWO32 - 1 else 0
  {
    var p := Filter(protocol, port);
    var s := At(7, a, x);
    RunStep(p, packet, s);
    if x + 16 <= |packet| {
      var s8 := Step(p, packet, s);
      RunStep(p, packet, s8);
      if s8.a == port {
        assert Step(p, packet, s8).pc == 11;
        RunStep(p, packet, Step(p, packet, s8));
      } else {
        var s9 := Step(p, packet, s8);
        RunStep(p, packet, s9);
        if x + 18 <= |packet| {
          var s10 := Step(p, packet, s9);
          RunStep(p, packet, s10);
          RunStep(p, packet, Step(p, packet, s10));
        }
      }
    }
  }

  /** Instructions 4 to 6: the fragment offset and the header length. */
  lemma RunFragment(packet: seq<byte>, protocol: byte, port: nat, a: nat)
    requires 24 <= |packet|
    ensures var p := Filter(protocol, port);
            Run(p, packet, At(4, a, 0)) ==
            if Half(packet, 20) % 0x2000 != 0 then 0
            else Run(p, packet, At(7, Half(packet, 20), packet[14] % 16 * 4))
  {
    var p := Filter(protocol, port);
    var s := At(4, a, 0);
    Masks(packet[14], Half(packet, 20));
    RunStep(p, packet, s);
    var s5 := Step(p, packet, s);
    RunStep(p, packet, s5);
    var s6 := Step(p, packet, s5);
    RunStep(p, packet, s6);
  }

  /** The same by half words, as the filter reads them. */
  lemma WantedIs(packet: seq<byte>, protocol: byte, port: nat)
    requires port < 0x10000
    ensures Wanted(packet, protocol, port) <==>
            && 24 <= |packet| && Half(packet, 12) == ETHERTYPE_IP && packet[23] == protocol
            && Half(packet, 20) % 0x2000 == 0
            && var h := packet[14] % 16 * 4;
               h + 16 <= |packet|
               && (Half(packet, 14 + h) == port || (h + 18 <= |packet| && Half(packet, 16 + h) == port))
  {
    if 24 <= |packet| {
      var h := packet[14] % 16 * 4;
      HalfIs(packet, 12, ETHERTYPE_IP);
      HalfIs(packet, 20, 0);
      hide Half;
      if h + 16 <= |packet| { HalfIs(packet, 14 + h, port); }
      if h + 18 <= |packet| { HalfIs(packet, 16 + h, port); }
    }
  }

  /** The filter accepts exactly the wanted packets, on every packet, protocol and port. */
  lemma FilterIsCorrect(packet: seq<byte>, protocol: byte, port: nat)
    requires port < 0x10000
    ensures Run(Filter(protocol, port), packet, At(0, 0, 0)) == if Wanted(packet, protocol, port) then TWO32 - 1 else 0
  {
    hide Wanted;
    var p := Filter(protocol, port);
    var s := At(0, 0, 0);
    WantedIs(packet, protocol, port);
    RunStep(p, packet, s);
    if |packet| >= 14 {
      var s1 := Step(p, packet, s);
      RunStep(p, packet, s1);
      var s2 := Step(p, packet, s1);
      RunStep(p, packet, s2);
      if s1.a == ETHERTYPE_IP && |packet| >= 24 {
        var s3 := Step(p, packet, s2);
        RunStep(p, packet, s3);
        var s4 := Step(p, packet, s3);
        if packet[23] == protocol {
          RunFragment(packet, protocol, port, s4.a);
          RunPorts(packet, protocol, port, Half(packet, 20), packet[14] % 16 * 4);
        } else {
          RunStep(p, packet, s4);
        }
      }
    }
  }
}
