# Packet screening of the pcap attack analyser

This project models the four screening steps of `IoTpcaps/analyze_Attacks.py` and proves
what each step keeps or reports:

- **convert_timestamps** keeps the packets that have both an IPv4 and a TCP layer. Each
  kept packet is paired with its timestamp, in input order.
- **filter_packets_by_time** keeps the packets whose timestamp lies in an inclusive window
  and drops the timestamps.
- **detect_protocol_violations** reports every TCP segment that has none of the six
  control bits of section 3.1 of RFC 793 set (FIN, SYN, RST, PSH, ACK, URG): the
  "NULL scan" pattern, tested as `flags & 0x3F == 0`.
- **detect_port_scanning** tallies the hits per destination port in a dictionary. It then
  reports every port with more than 100 hits.

A packet is abstracted to a record (`Packets.Packet`): a capture time on an ordered
integer scale, whether it has an IPv4 layer, and its TCP layer if it has one. The TCP
layer holds the destination port and the 9-bit flags field. The analyser prints its
findings; here each detector returns them as a sequence. Protocol violations are reported
as timestamps and port scans as port numbers.

Files:

- `selection.dfy` (module `Selection`): the shape shared by three of the steps. A loop
  or comprehension keeps some elements of a list and transforms the kept ones.
  `FilterMap` computes this. `IsSelection(r, s, keep, f)` states what the result is: some
  ascending list of positions holds exactly the positions of `s` whose element satisfies
  `keep`, and `r` is `f` applied to the elements at those positions, in order. This is
  "an order-preserving subsequence, with nothing missing" stated once.
  `SelectionDetermined` proves that this predicate fixes the result completely.
  `FilterMapCompose` proves that two selections in a row are one selection.
- `packets.dfy` (module `Packets`): the packet record, the flag constants and the
  NULL-scan test.
- `attacks.dfy` (module `Attacks`): the four operations. The loops of the source are
  methods with loop invariants. The list comprehension is a function.

In `detect_port_scanning`, the first branch tests `TCP in pkt`. Packets without TCP
therefore fall into the `else` branch, which evaluates `pkt[TCP].dport` and fails. The
model states this as the precondition `AllTcp`. `ConvertedAreStampedIpTcp` proves that the
output of `convert_timestamps` always meets it. Under that precondition, the `else` branch
is taken exactly for ports already in the dictionary.

Python dictionaries iterate in insertion order. So `TallyPorts` returns the order of the
keys beside the counts, and that order is the order of each port's first appearance
(`Distinct`). `DetectPortScanning` reports ports in that order.

## Model

| member | source | states |
|---|---|---|
| `Attacks.ConvertTimestamps` | IoTpcaps/analyze_Attacks.py:17-27 | the result pairs `(time, packet)` for exactly the input packets that have both an IPv4 and a TCP layer, each once, in input order; it is never longer than the input |
| `Attacks.ConvertedAreStampedIpTcp` | IoTpcaps/analyze_Attacks.py:21-24 | every element of a converted list has IPv4 and TCP and carries its own packet's time, so the converted list meets the port-scan precondition |
| `Attacks.FilterPacketsByTime` | IoTpcaps/analyze_Attacks.py:29-31 | the result is exactly the packets whose timestamp `ts` satisfies `start <= ts <= end` (both bounds inclusive), in input order, with timestamps stripped; never longer than the input |
| `Attacks.ConvertThenWindow` | IoTpcaps/analyze_Attacks.py:19-31 | cutting a time window out of the converted list gives exactly the input packets that have IPv4 and TCP and whose own capture time lies in the window, each once, in input order |
| `Attacks.EmptyWindow` | IoTpcaps/analyze_Attacks.py:31 | when `start > end` no packet passes the window |
| `Packets.NoControlBitsIff` | IoTpcaps/analyze_Attacks.py:36 | `flags & 0x3F == 0` holds iff none of FIN, SYN, RST, PSH, ACK, URG is set, and `0x3F` is the union of those six bits |
| `Attacks.DetectProtocolViolations` | IoTpcaps/analyze_Attacks.py:33-37 | reports the timestamp of exactly those entries whose packet has TCP with `flags & 0x3F == 0`, once each, in input order |
| `Attacks.ControlBitExcludes` | IoTpcaps/analyze_Attacks.py:36 | a TCP segment with any of the six control bits set is never a violation |
| `Attacks.DstPorts` | IoTpcaps/analyze_Attacks.py:43-46 | the destination port read from each packet, position by position, for an all-TCP list |
| `Attacks.TallyNewPort` | IoTpcaps/analyze_Attacks.py:43-44 | a port not yet in the dictionary is inserted with count 1 at the end of the key order, and the tally invariant (counts equal occurrences, keys equal ports seen, key order by first appearance, counts summing to the packets seen) still holds |
| `Attacks.TallyKnownPort` | IoTpcaps/analyze_Attacks.py:45-46 | incrementing the count of a port already in the dictionary keeps the tally invariant, with the key order unchanged |
| `Attacks.TallyPorts` | IoTpcaps/analyze_Attacks.py:41-46 | after the loop the keys are exactly the destination ports seen, each count is the number of packets sent to that port, the keys are in order of first appearance without repeats, and the counts sum to the number of packets |
| `Attacks.HeavyPortsExact` | IoTpcaps/analyze_Attacks.py:48-50 | keeping the ports of the key order whose count exceeds 100 yields each port with more than 100 hits exactly once and no other port |
| `Attacks.DetectPortScanning` | IoTpcaps/analyze_Attacks.py:39-50 | requires every packet to have TCP; reports exactly the ports hit strictly more than 100 times (a port with exactly 100 hits is not reported), each once, in order of first appearance |

## Left out

- `load_packets` (lines 9-15): reading a pcap file is I/O. The packet list is a parameter.
- The conversion of `pkt.time` to a float and then to a local `datetime` (lines 23-24),
  and the `ValueError` path that prints and skips the packet (lines 25-26). Timestamps
  are ordered integers, so no conversion can fail. The model also does not capture that
  local wall-clock times can repeat when daylight saving time ends.
- `check_malicious_communications` and `KNOWN_MALICIOUS_IPS` (lines 7 and 52): the
  function body is cut off in the file, so there is nothing to model.
- The text and formatting of the printed messages. Each report is returned as a value
  (timestamp or port) instead.
- How the steps are chained on the command line: the script's entry point is not part of
  the file as shown, so it is not part of this model.
- Packet parsing: whether a packet "has" an IPv4 or TCP layer and the values of its
  fields are given as inputs, not derived from bytes.
- `Attacks.DetectPortScanning`: the failure on a packet without TCP is a precondition, not
  a modelled error result, because the source does not handle it.
- The repository's other scripts are not part of this model. These are the device
  discovery scanner, the data-flow visualiser, the Lambda handlers and the flow scoring
  in `First Idea/LocalLambda.py`. Each is a separate program that does not share code
  with the packet analyser.
