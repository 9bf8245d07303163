/**
 * The UDP scanner (src/core/udp.rs): the probe payload sent to each port,
 * the state one probe yields, the per-target port map of
 * `fire_and_forget`, the merge of the targets in `udp_scan`, and the
 * string-keyed map `exec` hands to the output.
 *
 * Every socket call is an input: `peers(address, k)` says how binding,
 * connecting, sending and receiving went for the `k`-th port of the list
 * probed at `address`.
 */
module UdpScan {
  import opened Wrappers
  import opened Text
  import Net
  import opened PortSpec

  /** `UdpPortState`: a UDP port is open or closed, never filtered. */
  datatype UdpPortState = Open | Closed

  // ---------------------------------------------------------------------
  // Probe payloads

  /** A standard query, ID 0x1234, recursion desired, for the A record of
      `google.com` in class IN. */
  const DnsQuery: seq<Net.byte> :=
    [0x12, 0x34] + [0x01, 0x00] + [0x00, 0x01] + [0x00, 0x00] + [0x00, 0x00] + [0x00, 0x00]
    + [0x06, 0x67, 0x6f, 0x6f, 0x67, 0x6c, 0x65]
    + [0x03, 0x63, 0x6f, 0x6d]
    + [0x00]
    + [0x00, 0x01]
    + [0x00, 0x01]

  /** An SNMPv1 GetRequest, community `public`, request-id 1, for
      `sysDescr.0` (1.3.6.1.2.1.1.1.0). */
  const SnmpGetRequest: seq<Net.byte> :=
    [0x30, 0x26]
    + [0x02, 0x01, 0x00]
    + [0x04, 0x06, 0x70, 0x75, 0x62, 0x6c, 0x69, 0x63]
    + [0xa0, 0x19]
    + [0x02, 0x01, 0x01]
    + [0x02, 0x01, 0x00]
    + [0x02, 0x01, 0x00]
    + [0x30, 0x0e]
    + [0x30, 0x0c]
    + [0x06, 0x08, 0x2b, 0x06, 0x01, 0x02, 0x01, 0x01, 0x01, 0x00]
    + [0x05, 0x00]

  /** `n` zero bytes. */
  function Zeros(n: nat): (z: seq<Net.byte>)
    ensures |z| == n && forall k :: 0 <= k < n ==> z[k] == 0
  {
    if n == 0 then [] else [0] + Zeros(n - 1)
  }

  /** An NTP client request: the mode byte 0x1b and 47 zero bytes. */
  const NtpRequest: seq<Net.byte> := [0x1b] + Zeros(47)

  /** `get_probe_data_for_port`: DNS on 53, SNMP on 161, NTP on 123, an
      empty datagram everywhere else. */
  function ProbeData(port: Port): seq<Net.byte> {
    match port
    case 53 => DnsQuery
    case 161 => SnmpGetRequest
    case 123 => NtpRequest
    case _ => []
  }

  /** Only the three well-known ports get a payload, and each its own. */
  lemma ProbeDataTable(port: Port)
    ensures ProbeData(port) == DnsQuery <==> port == 53
    ensures ProbeData(port) == SnmpGetRequest <==> port == 161
    ensures ProbeData(port) == NtpRequest <==> port == 123
    ensures ProbeData(port) == [] <==> port !in {53, 123, 161}
  {
    assert |DnsQuery| == 28 && |SnmpGetRequest| == 40 && |NtpRequest| == 48;
  }

  /** A big-endian 16-bit field. */
  function Be16(msg: seq<Net.byte>, at: nat): nat
    requires at + 2 <= |msg|
  {
    (msg[at] as int) * 256 + msg[at + 1] as int
  }

  /** The labels of a DNS name that starts at offset `at` of `msg` (section
      3.1 of RFC 1035): length-prefixed labels of at most 63 bytes, up to
      the zero length; with the offset just past that zero. */
  function NameLabels(msg: seq<Net.byte>, at: nat): Option<(seq<seq<Net.byte>>, nat)>
    decreases |msg| - at
  {
    if at >= |msg| then None
    else if msg[at] == 0 then Some(([], at + 1))
    else if msg[at] > 63 || at + 1 + msg[at] > |msg| then None
    else match NameLabels(msg, at + 1 + msg[at])
      case None => None
      case Some(rest) => Some(([msg[at + 1..at + 1 + msg[at]]] + rest.0, rest.1))
  }

  /** The DNS payload is a well-formed query message (section 4.1 of RFC
      1035): a 12-byte header with one question and no records, the name
      `google` `com`, type A (1) and class IN (1), and nothing after. */
  lemma DnsQueryShape()
    ensures |DnsQuery| == 28
    ensures Be16(DnsQuery, 0) == 0x1234
    ensures Be16(DnsQuery, 2) == 0x0100
    ensures Be16(DnsQuery, 4) == 1
    ensures Be16(DnsQuery, 6) == 0 && Be16(DnsQuery, 8) == 0 && Be16(DnsQuery, 10) == 0
    ensures NameLabels(DnsQuery, 12) == Some(([Net.Bytes("google"), Net.Bytes("com")], 24))
    ensures Be16(DnsQuery, 24) == 1 && Be16(DnsQuery, 26) == 1
  {
    var q := DnsQuery;
    assert q[23] == 0;
    assert NameLabels(q, 23) == Some(([], 24));
    assert q[19] == 3 && q[20..23] == Net.Bytes("com");
    assert 19 + 1 + q[19] == 23;
    assert !(q[19] > 63 || 19 + 1 + q[19] > |q|) && q[19] != 0;
    assert NameLabels(q, 19) == Some(([q[20..23]] + [], 24));
    assert [q[20..23]] + [] == [Net.Bytes("com")];
    assert q[12] == 6 && q[13..19] == Net.Bytes("google");
    assert !(q[12] > 63 || 12 + 1 + q[12] > |q|) && q[12] != 0;
    assert NameLabels(q, 12) == Some(([q[13..19]] + [Net.Bytes("com")], 24));
    assert [q[13..19]] + [Net.Bytes("com")] == [Net.Bytes("google"), Net.Bytes("com")];
  }

  /** A BER element found in a message: its tag, and where its contents
      start and end. */
  datatype Element = Element(tag: Net.byte, start: nat, end: nat)

  /** The elements `elems[i..]` follow one another from offset `at` and
      end exactly at `to`: each starts with its tag and a short-form length
      (section 8.1.3.4 of ITU-T X.690), and its contents run for that many
      bytes. */
  predicate TilesFrom(m: seq<Net.byte>, to: nat, elems: seq<Element>, i: nat, at: nat)
    decreases |elems| - i
  {
    if i >= |elems| then at == to
    else
      && at + 2 <= to <= |m|
      && m[at] == elems[i].tag
      && m[at + 1] < 0x80
      && elems[i].start == at + 2
      && elems[i].end == at + 2 + m[at + 1] <= to
      && TilesFrom(m, to, elems, i + 1, elems[i].end)
  }

  /** `m[from..to]` consists of exactly the elements `elems`. */
  predicate Tiles(m: seq<Net.byte>, from: nat, to: nat, elems: seq<Element>) {
    TilesFrom(m, to, elems, 0, from)
  }

  /** `content` is the encoding of the object identifier `arcs` (section
      8.19 of ITU-T X.690) with every subidentifier in one byte: the first
      packs the first two arcs as 40 * x + y, each later one is an arc. */
  predicate EncodesOid(content: seq<Net.byte>, arcs: seq<nat>) {
    && |content| >= 1
    && |arcs| == |content| + 1
    && (forall k :: 0 <= k < |content| ==> content[k] < 0x80)
    && arcs[0] <= 2 && (arcs[0] < 2 ==> arcs[1] < 40)
    && content[0] == 40 * arcs[0] + arcs[1]
    && forall k :: 1 <= k < |content| ==> content[k] == arcs[k + 1]
  }

  /** The SNMP payload is one SEQUENCE holding the version, the community
      and a GetRequest-PDU (tag 0xA0); the PDU holds request-id, error
      status, error index and the variable-bindings SEQUENCE, which holds
      one binding of an OBJECT IDENTIFIER to NULL. Every length byte counts
      exactly the bytes of its element's contents. */
  lemma SnmpGetRequestShape()
    ensures |SnmpGetRequest| == 40
    ensures Tiles(SnmpGetRequest, 0, 40, [Element(0x30, 2, 40)])
    ensures Tiles(SnmpGetRequest, 2, 40, [Element(0x02, 4, 5), Element(0x04, 7, 13), Element(0xa0, 15, 40)])
    ensures Tiles(SnmpGetRequest, 15, 40,
                  [Element(0x02, 17, 18), Element(0x02, 20, 21), Element(0x02, 23, 24), Element(0x30, 26, 40)])
    ensures Tiles(SnmpGetRequest, 26, 40, [Element(0x30, 28, 40)])
    ensures Tiles(SnmpGetRequest, 28, 40, [Element(0x06, 30, 38), Element(0x05, 40, 40)])
  {
    var m := SnmpGetRequest;
    assert m[39] == 0 && m[38] == 5;
    assert m[29] == 8 && m[28] == 6;
    assert m[27] == 12 && m[26] == 0x30;
    assert m[25] == 14 && m[24] == 0x30;
    assert m[22] == 1 && m[21] == 2;
    assert m[19] == 1 && m[18] == 2;
    assert m[16] == 1 && m[15] == 2;
    assert m[14] == 25 && m[13] == 0xa0;
    assert m[6] == 6 && m[5] == 4;
    assert m[3] == 1 && m[2] == 2;
    assert m[1] == 38 && m[0] == 0x30;
  }

  /** The contents of those elements: version 0 (SNMPv1), community
      `public`, request-id 1, error status and index 0, and the object
      identifier 1.3.6.1.2.1.1.1.0. */
  lemma SnmpGetRequestFields()
    ensures SnmpGetRequest[4] == 0
    ensures SnmpGetRequest[7..13] == Net.Bytes("public")
    ensures SnmpGetRequest[17] == 1 && SnmpGetRequest[20] == 0 && SnmpGetRequest[23] == 0
    ensures EncodesOid(SnmpGetRequest[30..38], [1, 3, 6, 1, 2, 1, 1, 1, 0])
  {
    var o := SnmpGetRequest[30..38];
    assert o == [0x2b, 0x06, 0x01, 0x02, 0x01, 0x01, 0x01, 0x00];
  }

  /** The NTP payload is a 48-byte packet (section 7.3 of RFC 5905) whose
      first byte says leap indicator 0, version 3 and mode 3 (client), with
      every other field zero. */
  lemma NtpRequestShape()
    ensures |NtpRequest| == 48
    ensures NtpRequest[0] / 64 == 0 && (NtpRequest[0] / 8) % 8 == 3 && NtpRequest[0] % 8 == 3
    ensures forall k :: 1 <= k < 48 ==> NtpRequest[k] == 0
  {
  }

  // ---------------------------------------------------------------------
  // One probe

  /** What `socket.recv` under the timeout came to: a datagram, an error
      (an ICMP port unreachable, say), or the deadline. */
  datatype Received = Datagram | RecvError | RecvTimeout

  /** How the socket calls of one probe went: whether the bind and the
      connect succeeded, whether sending a payload succeeds, and what the
      receive saw. */
  datatype UdpPeer = UdpPeer(bindOk: bool, connectOk: bool, sendOk: seq<Net.byte> -> bool, recv: Received)

  /** `scan_udp_port`: any failure before the receive closes the port, an
      error on the receive closes it, and a datagram or silence opens it. */
  function ScanUdpPort(port: Port, peer: UdpPeer): (st: UdpPortState)
    ensures st == Open <==>
      peer.bindOk && peer.connectOk && peer.sendOk(ProbeData(port)) && peer.recv != RecvError
    ensures peer.recv == RecvTimeout && peer.bindOk && peer.connectOk && peer.sendOk(ProbeData(port)) ==> st == Open
  {
    if !peer.bindOk then Closed
    else if !peer.connectOk then Closed
    else if !peer.sendOk(ProbeData(port)) then Closed
    else match peer.recv
      case Datagram => Open
      case RecvError => Closed
      case RecvTimeout => Open
  }

  // ---------------------------------------------------------------------
  // One target

  /** The map `fire_and_forget` builds at `address`: each port of the list
      in turn is probed and its state inserted, replacing an earlier entry
      for the same port. */
  function Scanned(address: string, ports: seq<Port>, peers: (string, nat) -> UdpPeer): map<Port, UdpPortState>
    decreases |ports|
  {
    if ports == [] then map[]
    else
      var k := |ports| - 1;
      Scanned(address, ports[..k], peers)[ports[k] := ScanUdpPort(ports[k], peers(address, k))]
  }

  /** `fire_and_forget`. */
  method FireAndForget(address: string, ports: seq<Port>, peers: (string, nat) -> UdpPeer)
    returns (results: map<Port, UdpPortState>)
    ensures results == Scanned(address, ports, peers)
  {
    results := map[];
    var i := 0;
    while i < |ports|
      invariant 0 <= i <= |ports|
      invariant results == Scanned(address, ports[..i], peers)
    {
      assert ports[..i + 1][..i] == ports[..i];
      results := results[ports[i] := ScanUdpPort(ports[i], peers(address, i))];
      i := i + 1;
    }
    assert ports[..i] == ports;
  }

  /** The map has exactly the listed ports as keys. */
  lemma {:induction false} ScannedKeys(address: string, ports: seq<Port>, peers: (string, nat) -> UdpPeer)
    ensures Scanned(address, ports, peers).Keys == set p | p in ports
    decreases |ports|
  {
    if ports != [] {
      var k := |ports| - 1;
      ScannedKeys(address, ports[..k], peers);
      assert ports == ports[..k] + [ports[k]];
    }
  }

  /** A port listed more than once keeps the state of its last probe. */
  lemma {:induction false} ScannedLastWins(address: string, ports: seq<Port>, peers: (string, nat) -> UdpPeer, k: nat)
    requires k < |ports|
    requires forall j :: k < j < |ports| ==> ports[j] != ports[k]
    ensures ports[k] in Scanned(address, ports, peers)
    ensures Scanned(address, ports, peers)[ports[k]] == ScanUdpPort(ports[k], peers(address, k))
    decreases |ports|
  {
    var last := |ports| - 1;
    if k < last {
      ScannedLastWins(address, ports[..last], peers, k);
    }
  }

  // ---------------------------------------------------------------------
  // All targets

  /** The message of `AddrParseError`. */
  const AddrParseError: string := "invalid IP address syntax"

  /** The address a target is probed at: the target itself when it is an
      address; otherwise the first of the addresses its lookup answers,
      split off at `", "` and not trimmed. A failed lookup, or a first
      piece that is not an address, is an error. */
  function TargetAddress(target: string, validIp: string -> bool, resolve: string -> Result<string, string>): Result<string, string> {
    if validIp(target) then Ok(target)
    else match resolve(target)
      case Err(e) => Err(e)
      case Ok(ips) =>
        var first := SplitOn(ips, ", ")[0];
        if validIp(first) then Ok(first) else Err(AddrParseError)
  }

  /** `udp_scan`: each target's map is merged into the combined one in
      target order, a later target's state replacing an earlier one's; the
      first target whose address fails ends the scan with that error. */
  function Combined(targets: seq<string>, ports: seq<Port>, validIp: string -> bool,
                    resolve: string -> Result<string, string>, peers: (string, nat) -> UdpPeer): Result<map<Port, UdpPortState>, string>
    decreases |targets|
  {
    if targets == [] then Ok(map[])
    else
      var k := |targets| - 1;
      match Combined(targets[..k], ports, validIp, resolve, peers)
      case Err(e) => Err(e)
      case Ok(combined) =>
        match TargetAddress(targets[k], validIp, resolve)
        case Err(e) => Err(e)
        case Ok(address) => Ok(combined + Scanned(address, ports, peers))
  }

  /** The merging loop of `udp_scan`: every entry of `scan` is inserted. */
  method Merge(combined: map<Port, UdpPortState>, scan: map<Port, UdpPortState>) returns (r: map<Port, UdpPortState>)
    ensures r == combined + scan
  {
    r := combined;
    var remaining := scan.Keys;
    while remaining != {}
      invariant remaining <= scan.Keys
      invariant r.Keys == combined.Keys + (scan.Keys - remaining)
      invariant forall p :: p in r ==> r[p] == if p in scan && p !in remaining then scan[p] else combined[p]
      decreases remaining
    {
      var p :| p in remaining;
      r := r[p := scan[p]];
      remaining := remaining - {p};
    }
  }

  /** `udp_scan`. */
  method UdpScanTargets(targets: seq<string>, ports: seq<Port>, validIp: string -> bool,
                        resolve: string -> Result<string, string>, peers: (string, nat) -> UdpPeer)
    returns (r: Result<map<Port, UdpPortState>, string>)
    ensures r == Combined(targets, ports, validIp, resolve, peers)
  {
    var combined: map<Port, UdpPortState> := map[];
    var i := 0;
    while i < |targets|
      invariant 0 <= i <= |targets|
      invariant Combined(targets[..i], ports, validIp, resolve, peers) == Ok(combined)
    {
      assert targets[..i + 1][..i] == targets[..i];
      var address := TargetAddress(targets[i], validIp, resolve);
      if address.Err? {
        CombinedErrPersists(targets, i + 1, ports, validIp, resolve, peers);
        return Err(address.error);
      }
      var scan := FireAndForget(address.value, ports, peers);
      combined := Merge(combined, scan);
      i := i + 1;
    }
    assert targets[..i] == targets;
    return Ok(combined);
  }

  /** Once a target has failed, the scan fails with its error. */
  lemma {:induction false} CombinedErrPersists(targets: seq<string>, i: nat, ports: seq<Port>, validIp: string -> bool,
                                               resolve: string -> Result<string, string>, peers: (string, nat) -> UdpPeer)
    requires i <= |targets| && Combined(targets[..i], ports, validIp, resolve, peers).Err?
    ensures Combined(targets, ports, validIp, resolve, peers) == Combined(targets[..i], ports, validIp, resolve, peers)
    decreases |targets|
  {
    if i < |targets| {
      var init := targets[..|targets| - 1];
      assert init[..i] == targets[..i];
      CombinedErrPersists(init, i, ports, validIp, resolve, peers);
    } else {
      assert targets[..i] == targets;
    }
  }

  /** The scan succeeds exactly when every target has an address. */
  lemma {:induction false} CombinedOkIff(targets: seq<string>, ports: seq<Port>, validIp: string -> bool,
                                         resolve: string -> Result<string, string>, peers: (string, nat) -> UdpPeer)
    ensures Combined(targets, ports, validIp, resolve, peers).Ok? <==>
      forall k :: 0 <= k < |targets| ==> TargetAddress(targets[k], validIp, resolve).Ok?
    decreases |targets|
  {
    if targets != [] {
      var init := targets[..|targets| - 1];
      CombinedOkIff(init, ports, validIp, resolve, peers);
      assert forall k :: 0 <= k < |init| ==> init[k] == targets[k];
    }
  }

  /** Every target probes the same ports, so the combined map is the map
      of the last target: earlier targets' states are all overwritten. */
  lemma {:induction false} CombinedLastTarget(targets: seq<string>, ports: seq<Port>, validIp: string -> bool,
                                              resolve: string -> Result<string, string>, peers: (string, nat) -> UdpPeer)
    requires targets != [] && Combined(targets, ports, validIp, resolve, peers).Ok?
    ensures TargetAddress(targets[|targets| - 1], validIp, resolve).Ok?
    ensures Combined(targets, ports, validIp, resolve, peers).value ==
      Scanned(TargetAddress(targets[|targets| - 1], validIp, resolve).value, ports, peers)
  {
    var k := |targets| - 1;
    var combined := Combined(targets[..k], ports, validIp, resolve, peers).value;
    var scan := Scanned(TargetAddress(targets[k], validIp, resolve).value, ports, peers);
    CombinedKeys(targets[..k], ports, validIp, resolve, peers);
    ScannedKeys(TargetAddress(targets[k], validIp, resolve).value, ports, peers);
    assert combined + scan == scan;
  }

  /** The combined map's keys are the listed ports, or none when there is
      no target. */
  lemma {:induction false} CombinedKeys(targets: seq<string>, ports: seq<Port>, validIp: string -> bool,
                                        resolve: string -> Result<string, string>, peers: (string, nat) -> UdpPeer)
    requires Combined(targets, ports, validIp, resolve, peers).Ok?
    ensures Combined(targets, ports, validIp, resolve, peers).value.Keys ==
      if targets == [] then {} else set p | p in ports
    decreases |targets|
  {
    if targets != [] {
      var k := |targets| - 1;
      CombinedKeys(targets[..k], ports, validIp, resolve, peers);
      ScannedKeys(TargetAddress(targets[k], validIp, resolve).value, ports, peers);
    }
  }

  // ---------------------------------------------------------------------
  // The command

  /** What `exec` ends with: no valid port (no scan at all), an empty
      result, or the port map handed to the output, keyed by the port's
      decimal text. */
  datatype UdpReport = NoPorts | NoResults | Report(ports: map<string, Net.PortState>)

  /** The UDP state as the output's `PortState`. */
  function ToPortState(st: UdpPortState): Net.PortState {
    match st
    case Open => Net.Open
    case Closed => Net.Closed
  }

  /** The decimal text of a port names that port only. */
  lemma NatToStringInjective(p: Port, q: Port)
    ensures NatToString(p) == NatToString(q) ==> p == q
  {
    ParseNatToString(p, U16Max);
    ParseNatToString(q, U16Max);
  }

  /** The conversion loop of `exec`: the same entries keyed by text. */
  function ToPortsMap(results: map<Port, UdpPortState>): map<string, Net.PortState> {
    assert forall p: Port, q: Port :: NatToString(p) == NatToString(q) ==> p == q by {
      forall p: Port, q: Port ensures NatToString(p) == NatToString(q) ==> p == q {
        NatToStringInjective(p, q);
      }
    }
    map p | p in results :: NatToString(p) := ToPortState(results[p])
  }

  /** `exec`, up to display. */
  function ExecOutcome(spec: string, targets: seq<string>, validIp: string -> bool,
                       resolve: string -> Result<string, string>, peers: (string, nat) -> UdpPeer): Result<UdpReport, string> {
    var ports := Expand(spec);
    if ports == [] then Ok(NoPorts)
    else match Combined(targets, ports, validIp, resolve, peers)
      case Err(e) => Err(e)
      case Ok(results) => if results == map[] then Ok(NoResults) else Ok(Report(ToPortsMap(results)))
  }

  /** The conversion loop of `exec`. */
  method ConvertResults(results: map<Port, UdpPortState>) returns (portsMap: map<string, Net.PortState>)
    ensures portsMap == ToPortsMap(results)
  {
    portsMap := map[];
    var remaining := results.Keys;
    while remaining != {}
      invariant remaining <= results.Keys
      invariant portsMap.Keys == set p | p in results.Keys - remaining :: NatToString(p)
      invariant forall p :: p in results && p !in remaining ==> portsMap[NatToString(p)] == ToPortState(results[p])
      decreases remaining
    {
      var p :| p in remaining;
      forall q | q in results && q !in remaining
        ensures NatToString(q) != NatToString(p)
      {
        NatToStringInjective(p, q);
      }
      portsMap := portsMap[NatToString(p) := ToPortState(results[p])];
      remaining := remaining - {p};
    }
  }

  /** `exec`: parses the ports, scans the targets, and converts. */
  method Exec(spec: string, targets: seq<string>, validIp: string -> bool,
              resolve: string -> Result<string, string>, peers: (string, nat) -> UdpPeer) returns (r: Result<UdpReport, string>)
    ensures r == ExecOutcome(spec, targets, validIp, resolve, peers)
  {
    var ports := ParsePorts(spec);
    if ports == [] {
      return Ok(NoPorts);
    }
    var results := UdpScanTargets(targets, ports, validIp, resolve, peers);
    if results.Err? {
      return Err(results.error);
    }
    if results.value == map[] {
      return Ok(NoResults);
    }
    var portsMap := ConvertResults(results.value);
    return Ok(Report(portsMap));
  }

  /** Without a valid port nothing is scanned; with ports but no target the
      result is empty. */
  lemma ExecEmpty(spec: string, targets: seq<string>, validIp: string -> bool,
                  resolve: string -> Result<string, string>, peers: (string, nat) -> UdpPeer)
    ensures ExecOutcome(spec, targets, validIp, resolve, peers) == Ok(NoPorts) <==> Expand(spec) == []
    ensures Expand(spec) != [] && targets == [] ==> ExecOutcome(spec, targets, validIp, resolve, peers) == Ok(NoResults)
  {
  }

  /** The report has one entry per listed port, keyed by its decimal text,
      holding the last target's state for it, and never `Filtered`. */
  lemma ExecReport(spec: string, targets: seq<string>, validIp: string -> bool,
                   resolve: string -> Result<string, string>, peers: (string, nat) -> UdpPeer)
    requires ExecOutcome(spec, targets, validIp, resolve, peers).Ok?
    requires ExecOutcome(spec, targets, validIp, resolve, peers).value.Report?
    ensures var m := ExecOutcome(spec, targets, validIp, resolve, peers).value.ports;
      && m.Keys == (set p | p in Expand(spec) :: NatToString(p))
      && targets != []
      && TargetAddress(targets[|targets| - 1], validIp, resolve).Ok?
      && m == ToPortsMap(Scanned(TargetAddress(targets[|targets| - 1], validIp, resolve).value, Expand(spec), peers))
      && forall s :: s in m ==> m[s] != Net.Filtered
  {
    var ports := Expand(spec);
    CombinedKeys(targets, ports, validIp, resolve, peers);
    CombinedLastTarget(targets, ports, validIp, resolve, peers);
  }
}
