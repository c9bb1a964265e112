/**
 The part of a captured packet that the attack detector looks at: whether it has an
 IPv4 layer, its TCP layer if any (destination port and flags), and its capture time.
 */
module Packets {

  datatype Option<T> = None | Some(value: T)

  /** A TCP port number, 16 bits. */
  type Port = p: int | 0 <= p < 0x1_0000

  /**
   The TCP flags field as 9 bits: the six control bits of section 3.1 of RFC 793 in the
   low six bits, then ECE and CWR (RFC 3168) and NS (RFC 3540).
   */
  type Flags = bv9

  const FIN: Flags := 0x01
  const SYN: Flags := 0x02
  const RST: Flags := 0x04
  const PSH: Flags := 0x08
  const ACK: Flags := 0x10
  const URG: Flags := 0x20

  /** The mask the detector applies to the flags. */
  const ControlBits: Flags := 0x3F

  datatype TcpSegment = TcpSegment(dport: Port, flags: Flags)

  /**
   `hasIp` stands for an IPv4 layer; `tcp` is the TCP layer when there is one (a packet
   may carry TCP without IPv4, over IPv6 for instance). `time` is the capture time on an
   ordered integer scale.
   */
  datatype Packet = Packet(time: int, hasIp: bool, tcp: Option<TcpSegment>)

  predicate HasIpTcp(p: Packet) {
    p.hasIp && p.tcp.Some?
  }

  /** No control bit is set: the pattern of a "NULL scan". */
  predicate NoControlBits(f: Flags) {
    f & ControlBits == 0
  }

  /** The mask tests exactly FIN, SYN, RST, PSH, ACK and URG, and nothing else. */
  lemma NoControlBitsIff(f: Flags)
    ensures NoControlBits(f) <==>
      f & FIN == 0 && f & SYN == 0 && f & RST == 0 && f & PSH == 0 && f & ACK == 0 && f & URG == 0
    ensures ControlBits == FIN | SYN | RST | PSH | ACK | URG
  {
  }
}
