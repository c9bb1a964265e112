/**
 The packet-screening steps of the pcap attack analyser: keep the IPv4/TCP packets with
 their timestamps, cut a time window, flag TCP segments without any control bit, and
 flag destination ports hit more than a threshold number of times. What the analyser
 prints is returned here as a sequence of reports.
 */
module Attacks {
  import opened Selection
  import opened Packets

  /** A packet paired with its timestamp. */
  type Stamped = (int, Packet)

  function Stamp(p: Packet): Stamped { (p.time, p) }
  function PacketOf(sp: Stamped): Packet { sp.1 }
  function TimeOf(sp: Stamped): int { sp.0 }

  /** A port hit more often than this is reported as a possible port scan. */
  const ScanThreshold := 100

  // ---------------------------------------------------------------------------
  // convert_timestamps

  /**
   Keeps the packets that have both an IPv4 and a TCP layer, in input order, each paired
   with its own timestamp.
   */
  method ConvertTimestamps(packets: seq<Packet>) returns (converted: seq<Stamped>)
    ensures IsSelection(converted, packets, HasIpTcp, Stamp)
    ensures |converted| <= |packets|
  {
    converted := [];
    for i := 0 to |packets|
      invariant converted == FilterMap(packets[..i], HasIpTcp, Stamp)
    {
      var pkt := packets[i];
      if pkt.hasIp && pkt.tcp.Some? {
        converted := converted + [(pkt.time, pkt)];
      }
      FilterMapSnoc(packets, i, HasIpTcp, Stamp);
    }
    assert packets[..|packets|] == packets;
    FilterMapIsSelection(packets, HasIpTcp, Stamp);
  }

  /** Every packet of a converted list has TCP, so the list can go to the port-scan tally. */
  predicate AllTcp(stamped: seq<Stamped>) {
    forall k :: 0 <= k < |stamped| ==> stamped[k].1.tcp.Some?
  }

  lemma {:induction false} ConvertedAreStampedIpTcp(converted: seq<Stamped>, packets: seq<Packet>)
    requires IsSelection(converted, packets, HasIpTcp, Stamp)
    ensures forall k :: 0 <= k < |converted| ==>
      HasIpTcp(converted[k].1) && converted[k].0 == converted[k].1.time
    ensures AllTcp(converted)
  {
    SelectionMembers(converted, packets, HasIpTcp, Stamp);
  }

  // ---------------------------------------------------------------------------
  // filter_packets_by_time

  /** Both bounds are inclusive. */
  function InWindow(start: int, end: int): Stamped -> bool {
    (sp: Stamped) => start <= sp.0 <= end
  }

  /**
   The packets whose timestamp lies in [start, end], in input order, with the
   timestamps dropped.
   */
  function FilterPacketsByTime(stamped: seq<Stamped>, start: int, end: int): (r: seq<Packet>)
    ensures IsSelection(r, stamped, InWindow(start, end), PacketOf)
    ensures |r| <= |stamped|
  {
    FilterMapIsSelection(stamped, InWindow(start, end), PacketOf);
    FilterMap(stamped, InWindow(start, end), PacketOf)
  }

  lemma EmptyWindow(stamped: seq<Stamped>, start: int, end: int)
    requires start > end
    ensures FilterPacketsByTime(stamped, start, end) == []
  {
    FilterMapOfNothing(stamped, InWindow(start, end), PacketOf);
  }

  /** The packets with IPv4 and TCP whose own capture time lies in [start, end]. */
  function IpTcpInWindow(start: int, end: int): Packet -> bool {
    (p: Packet) => HasIpTcp(p) && start <= p.time <= end
  }

  /**
   The two steps chained: cutting a window out of the converted list gives exactly the
   IPv4/TCP packets whose capture time lies in the window, in input order.
   */
  lemma ConvertThenWindow(converted: seq<Stamped>, packets: seq<Packet>, start: int, end: int)
    requires IsSelection(converted, packets, HasIpTcp, Stamp)
    ensures IsSelection(FilterPacketsByTime(converted, start, end), packets,
                        IpTcpInWindow(start, end), Id)
  {
    FilterMapIsSelection(packets, HasIpTcp, Stamp);
    SelectionDetermined(converted, FilterMap(packets, HasIpTcp, Stamp), packets, HasIpTcp, Stamp);
    FilterMapCompose(packets, HasIpTcp, Stamp, InWindow(start, end), PacketOf,
                     IpTcpInWindow(start, end), Id);
    FilterMapIsSelection(packets, IpTcpInWindow(start, end), Id);
  }

  // ---------------------------------------------------------------------------
  // detect_protocol_violations

  /** A TCP segment with none of FIN, SYN, RST, PSH, ACK, URG set. */
  predicate IsViolation(sp: Stamped) {
    sp.1.tcp.Some? && NoControlBits(sp.1.tcp.value.flags)
  }

  /** Reports the timestamp of every TCP segment without control bits, once each, in order. */
  method DetectProtocolViolations(stamped: seq<Stamped>) returns (reports: seq<int>)
    ensures IsSelection(reports, stamped, IsViolation, TimeOf)
  {
    reports := [];
    for i := 0 to |stamped|
      invariant reports == FilterMap(stamped[..i], IsViolation, TimeOf)
    {
      var (ts, pkt) := stamped[i];
      if pkt.tcp.Some? && pkt.tcp.value.flags & ControlBits == 0 {
        reports := reports + [ts];
      }
      FilterMapSnoc(stamped, i, IsViolation, TimeOf);
    }
    assert stamped[..|stamped|] == stamped;
    FilterMapIsSelection(stamped, IsViolation, TimeOf);
  }

  /** A segment with any control bit set is never reported. */
  lemma ControlBitExcludes(sp: Stamped)
    requires sp.1.tcp.Some?
    requires sp.1.tcp.value.flags & (FIN | SYN | RST | PSH | ACK | URG) != 0
    ensures !IsViolation(sp)
  {
    NoControlBitsIff(sp.1.tcp.value.flags);
  }

  // ---------------------------------------------------------------------------
  // detect_port_scanning

  /** The destination ports of a list of TCP packets, in order. */
  function DstPorts(stamped: seq<Stamped>): (ports: seq<Port>)
    requires AllTcp(stamped)
    ensures |ports| == |stamped|
    ensures forall k :: 0 <= k < |stamped| ==> ports[k] == stamped[k].1.tcp.value.dport
  {
    if stamped == [] then []
    else
      var n := |stamped| - 1;
      DstPorts(stamped[..n]) + [stamped[n].1.tcp.value.dport]
  }

  /** The distinct elements of `s` in order of first occurrence. */
  function Distinct(s: seq<Port>): seq<Port> {
    if s == [] then []
    else
      var n := |s| - 1;
      if s[n] in s[..n] then Distinct(s[..n]) else Distinct(s[..n]) + [s[n]]
  }

  lemma {:induction false} DistinctSpec(s: seq<Port>)
    ensures NoDuplicates(Distinct(s))
    ensures forall p :: p in Distinct(s) <==> p in s
  {
    if s != [] {
      var n := |s| - 1;
      DistinctSpec(s[..n]);
      assert s == s[..n] + [s[n]];
    }
  }

  /** The sum of the counts `hits` holds for `keys` (a missing key counts 0). */
  function TotalHits(hits: map<Port, nat>, keys: seq<Port>): int {
    if keys == [] then 0
    else
      var n := |keys| - 1;
      TotalHits(hits, keys[..n]) + (if keys[n] in hits then hits[keys[n]] else 0)
  }

  lemma {:induction false} TotalHitsOtherKey(hits: map<Port, nat>, keys: seq<Port>, d: Port, v: nat)
    requires d !in keys
    ensures TotalHits(hits[d := v], keys) == TotalHits(hits, keys)
  {
    if keys != [] {
      var n := |keys| - 1;
      TotalHitsOtherKey(hits, keys[..n], d, v);
    }
  }

  lemma {:induction false} TotalHitsBump(hits: map<Port, nat>, keys: seq<Port>, d: Port)
    requires NoDuplicates(keys)
    requires d in keys && d in hits
    ensures TotalHits(hits[d := hits[d] + 1], keys) == TotalHits(hits, keys) + 1
  {
    var n := |keys| - 1;
    var front := keys[..n];
    assert keys == front + [keys[n]];
    if keys[n] == d {
      assert d !in front;
      TotalHitsOtherKey(hits, front, d, hits[d] + 1);
    } else {
      assert d in front;
      TotalHitsBump(hits, front, d);
    }
  }

  /**
   `hits` and `order` are the tally of the ports `s`: every port of `s` is a key, mapped
   to its number of occurrences; `order` lists the keys by first occurrence, and the
   counts add up to the number of ports.
   */
  ghost predicate IsTally(hits: map<Port, nat>, order: seq<Port>, s: seq<Port>) {
    && (forall p :: p in hits <==> p in s)
    && (forall p :: p in hits ==> hits[p] == multiset(s)[p])
    && order == Distinct(s)
    && TotalHits(hits, order) == |s|
  }

  lemma TallyOfNothing()
    ensures IsTally(map[], [], [])
  {
  }

  /** Appending a port extends the first-appearance order only when the port is new. */
  lemma DistinctSnoc(s: seq<Port>, d: Port)
    ensures Distinct(s + [d]) == if d in s then Distinct(s) else Distinct(s) + [d]
  {
    assert (s + [d])[..|s|] == s;
  }

  /** Counting one more occurrence of `d`. */
  lemma {:induction false} CountsSnoc(hits: map<Port, nat>, s: seq<Port>, d: Port)
    requires forall p :: p in hits <==> p in s
    requires forall p :: p in hits ==> hits[p] == multiset(s)[p]
    ensures var hits' := hits[d := if d in hits then hits[d] + 1 else 1];
      && (forall p :: p in hits' <==> p in s + [d])
      && (forall p :: p in hits' ==> hits'[p] == multiset(s + [d])[p])
  {
    assert multiset(s + [d]) == multiset(s) + multiset{d};
    assert forall p :: p in s + [d] <==> p in s || p == d;
  }

  /** A port seen for the first time becomes a key with one hit, at the end of the order. */
  lemma {:induction false} TallyNewPort(hits: map<Port, nat>, order: seq<Port>, s: seq<Port>, d: Port)
    requires IsTally(hits, order, s)
    requires d !in hits
    ensures IsTally(hits[d := 1], order + [d], s + [d])
  {
    var hits', order' := hits[d := 1], order + [d];
    assert d !in s;
    assert (forall p :: p in hits' <==> p in s + [d])
        && (forall p :: p in hits' ==> hits'[p] == multiset(s + [d])[p]) by {
      CountsSnoc(hits, s, d);
    }
    assert order' == Distinct(s + [d]) by {
      DistinctSnoc(s, d);
    }
    assert TotalHits(hits', order') == |s| + 1 by {
      DistinctSpec(s);
      assert d !in order;
      TotalHitsOtherKey(hits, order, d, 1);
      assert order'[..|order|] == order;
      assert TotalHits(hits', order') == TotalHits(hits', order) + 1;
    }
  }

  /** A port seen before gets one more hit; the order is unchanged. */
  lemma {:induction false} TallyKnownPort(hits: map<Port, nat>, order: seq<Port>, s: seq<Port>, d: Port)
    requires IsTally(hits, order, s)
    requires d in hits
    ensures IsTally(hits[d := hits[d] + 1], order, s + [d])
  {
    var hits' := hits[d := hits[d] + 1];
    assert d in s;
    assert (forall p :: p in hits' <==> p in s + [d])
        && (forall p :: p in hits' ==> hits'[p] == multiset(s + [d])[p]) by {
      CountsSnoc(hits, s, d);
    }
    assert order == Distinct(s + [d]) by {
      DistinctSnoc(s, d);
    }
    assert TotalHits(hits', order) == |s| + 1 by {
      DistinctSpec(s);
      TotalHitsBump(hits, order, d);
    }
  }

  /**
   The per-port tally: `hits` maps each destination port seen to the number of packets
   sent to it, `order` lists its keys as a dictionary keeps them (order of insertion).
   */
  method TallyPorts(stamped: seq<Stamped>) returns (hits: map<Port, nat>, order: seq<Port>)
    requires AllTcp(stamped)
    ensures forall p :: p in hits <==> p in DstPorts(stamped)
    ensures forall p :: p in hits ==> hits[p] == multiset(DstPorts(stamped))[p]
    ensures order == Distinct(DstPorts(stamped))
    ensures forall p :: p in order <==> p in hits
    ensures NoDuplicates(order)
    ensures TotalHits(hits, order) == |stamped|
  {
    ghost var ports := DstPorts(stamped);
    hits, order := map[], [];
    TallyOfNothing();
    for i := 0 to |stamped|
      invariant IsTally(hits, order, ports[..i])
    {
      var (ts, pkt) := stamped[i];
      assert ports[..i + 1] == ports[..i] + [pkt.tcp.value.dport];
      if pkt.tcp.Some? && pkt.tcp.value.dport !in hits {
        TallyNewPort(hits, order, ports[..i], pkt.tcp.value.dport);
        hits := hits[pkt.tcp.value.dport := 1];
        order := order + [pkt.tcp.value.dport];
      } else {
        TallyKnownPort(hits, order, ports[..i], pkt.tcp.value.dport);
        hits := hits[pkt.tcp.value.dport := hits[pkt.tcp.value.dport] + 1];
      }
    }
    assert ports[..|stamped|] == ports;
    DistinctSpec(ports);
  }

  /** More than `ScanThreshold` packets went to port `p`. */
  function Heavy(ports: seq<Port>): Port -> bool {
    (p: Port) => multiset(ports)[p] > ScanThreshold
  }

  /**
   Keeping the heavy ports of the tally order gives each port over the threshold exactly
   once, and no other port.
   */
  lemma {:induction false} HeavyPortsExact(flagged: seq<Port>, ports: seq<Port>)
    requires flagged == FilterMap(Distinct(ports), Heavy(ports), Id)
    ensures IsSelection(flagged, Distinct(ports), Heavy(ports), Id)
    ensures forall p :: p in flagged <==> multiset(ports)[p] > ScanThreshold
    ensures NoDuplicates(flagged)
  {
    var order := Distinct(ports);
    FilterMapIsSelection(order, Heavy(ports), Id);
    DistinctSpec(ports);
    SelectionKeepsDistinct(flagged, order, Heavy(ports));
    SelectionMembers(flagged, order, Heavy(ports), Id);
    forall p | p in flagged
      ensures multiset(ports)[p] > ScanThreshold
    {
      var k :| 0 <= k < |flagged| && flagged[k] == p;
      var i :| 0 <= i < |order| && Heavy(ports)(order[i]) && flagged[k] == Id(order[i]);
    }
    forall p | multiset(ports)[p] > ScanThreshold
      ensures p in flagged
    {
      assert p in ports;
      var i :| 0 <= i < |order| && order[i] == p;
      assert Heavy(ports)(order[i]);
    }
  }

  /**
   Reports every destination port hit more than `ScanThreshold` times, once each, in
   order of first appearance. Every packet must have a TCP layer.
   */
  method DetectPortScanning(stamped: seq<Stamped>) returns (flagged: seq<Port>)
    requires AllTcp(stamped)
    ensures IsSelection(flagged, Distinct(DstPorts(stamped)), Heavy(DstPorts(stamped)), Id)
    ensures forall p :: p in flagged <==> multiset(DstPorts(stamped))[p] > ScanThreshold
    ensures NoDuplicates(flagged)
  {
    var hits, order := TallyPorts(stamped);
    ghost var ports := DstPorts(stamped);
    flagged := [];
    for i := 0 to |order|
      invariant flagged == FilterMap(order[..i], Heavy(ports), Id)
    {
      var port := order[i];
      assert port in order;
      var count := hits[port];
      assert count > ScanThreshold <==> Heavy(ports)(port);
      if count > ScanThreshold {
        flagged := flagged + [port];
      }
      FilterMapSnoc(order, i, Heavy(ports), Id);
    }
    assert order[..|order|] == order;
    HeavyPortsExact(flagged, ports);
  }
}
