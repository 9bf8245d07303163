/**
 * The earlier TCP scanner (src/scanner/tcp.rs). Its port-list parsing and
 * its connect classification are those of src/core/tcp.rs (`PortSpec` and
 * `TcpScan.ConnectState`); what differs is that its buckets hold the port
 * strings only, that the port map shown depends on the verbose flag, that
 * every address a name resolves to is scanned, and the sizes of its two
 * semaphores.
 *
 * Every connect is an input: `connects(target, k)` is the outcome of the
 * connect to the `k`-th port of the port list of `target`.
 */
module ScannerTcp {
  import opened Wrappers
  import opened Text
  import opened Net
  import opened PortSpec
  import TcpScan

  // ---------------------------------------------------------------------
  // Buckets of port strings

  /** `SynScanResult` of this scanner: the port strings of each state. */
  datatype SynScanResult = SynScanResult(openPorts: seq<string>, closedPorts: seq<string>, filteredPorts: seq<string>)

  /** The port strings of some results, in order. */
  function Names(results: seq<TcpScan.PortResult>): (r: seq<string>)
    ensures |r| == |results| && forall k :: 0 <= k < |results| ==> r[k] == results[k].port
  {
    seq(|results|, k requires 0 <= k < |results| => results[k].port)
  }

  /** The buckets the collecting loop of `syn_scan` fills: the ports of
      each state, in result order. */
  function Buckets(results: seq<TcpScan.PortResult>): SynScanResult {
    SynScanResult(Names(TcpScan.Select(results, Open)), Names(TcpScan.Select(results, Closed)),
                  Names(TcpScan.Select(results, Filtered)))
  }

  /** Naming commutes with appending. */
  lemma NamesConcat(xs: seq<TcpScan.PortResult>, ys: seq<TcpScan.PortResult>)
    ensures Names(xs + ys) == Names(xs) + Names(ys)
  {
  }

  /** One more result adds its port to the bucket of its state only. */
  lemma BucketsSnoc(results: seq<TcpScan.PortResult>, st: PortState, i: nat)
    requires i < |results|
    ensures Names(TcpScan.Select(results[..i + 1], st)) ==
      Names(TcpScan.Select(results[..i], st)) + (if results[i].state == st then [results[i].port] else [])
  {
    TcpScan.SelectSnoc(results, st, i);
    NamesConcat(TcpScan.Select(results[..i], st), if results[i].state == st then [results[i]] else []);
  }

  /** The collecting loop of `syn_scan`. */
  method Bucket(results: seq<TcpScan.PortResult>) returns (scan: SynScanResult)
    ensures scan == Buckets(results)
  {
    var openPorts, closedPorts, filteredPorts := [], [], [];
    var i := 0;
    while i < |results|
      invariant 0 <= i <= |results|
      invariant openPorts == Names(TcpScan.Select(results[..i], Open))
      invariant closedPorts == Names(TcpScan.Select(results[..i], Closed))
      invariant filteredPorts == Names(TcpScan.Select(results[..i], Filtered))
    {
      BucketsSnoc(results, Open, i);
      BucketsSnoc(results, Closed, i);
      BucketsSnoc(results, Filtered, i);
      var result := results[i];
      match result.state {
        case Open => openPorts := openPorts + [result.port];
        case Closed => closedPorts := closedPorts + [result.port];
        case Filtered => filteredPorts := filteredPorts + [result.port];
      }
      i := i + 1;
    }
    assert results[..i] == results;
    scan := SynScanResult(openPorts, closedPorts, filteredPorts);
  }

  /** Appending one port to the port strings appends it to exactly one
      bucket. */
  lemma NamesAppend(o: seq<string>, c: seq<string>, f: seq<string>, init: seq<string>, last: TcpScan.PortResult,
                    o': seq<string>, c': seq<string>, f': seq<string>)
    requires multiset(o) + multiset(c) + multiset(f) == multiset(init)
    requires o' == o + (if last.state == Open then [last.port] else [])
    requires c' == c + (if last.state == Closed then [last.port] else [])
    requires f' == f + (if last.state == Filtered then [last.port] else [])
    ensures multiset(o') + multiset(c') + multiset(f') == multiset(init + [last.port])
  {
    assert multiset(init + [last.port]) == multiset(init) + multiset{last.port};
    match last.state {
      case Open => assert multiset(o') == multiset(o) + multiset{last.port} && c' == c && f' == f;
      case Closed => assert multiset(c') == multiset(c) + multiset{last.port} && o' == o && f' == f;
      case Filtered => assert multiset(f') == multiset(f) + multiset{last.port} && o' == o && c' == c;
    }
  }

  /** Every port string lands in exactly one bucket: together the buckets
      are a rearrangement of the results' ports. */
  lemma {:induction false} BucketsPartition(results: seq<TcpScan.PortResult>)
    ensures var b := Buckets(results);
      multiset(b.openPorts) + multiset(b.closedPorts) + multiset(b.filteredPorts) == multiset(Names(results))
    decreases |results|
  {
    if results != [] {
      var i := |results| - 1;
      BucketsPartition(results[..i]);
      PartitionStep(results, i);
    }
  }

  /** The inductive step of `BucketsPartition`. */
  lemma PartitionStep(results: seq<TcpScan.PortResult>, i: nat)
    requires i + 1 == |results|
    requires var b := Buckets(results[..i]);
      multiset(b.openPorts) + multiset(b.closedPorts) + multiset(b.filteredPorts) == multiset(Names(results[..i]))
    ensures var b := Buckets(results);
      multiset(b.openPorts) + multiset(b.closedPorts) + multiset(b.filteredPorts) == multiset(Names(results))
  {
    var init, last := results[..i], results[i];
    var b, b' := Buckets(init), Buckets(results);
    BucketsSnoc(results, Open, i);
    BucketsSnoc(results, Closed, i);
    BucketsSnoc(results, Filtered, i);
    assert results[..i + 1] == results;
    var o' := b'.openPorts;
    assert o' == b.openPorts + (if last.state == Open then [last.port] else []);
    var c' := b'.closedPorts;
    assert c' == b.closedPorts + (if last.state == Closed then [last.port] else []);
    var f' := b'.filteredPorts;
    assert f' == b.filteredPorts + (if last.state == Filtered then [last.port] else []);
    var names := Names(init);
    assert Names(results) == names + [last.port];
    NamesAppend(b.openPorts, b.closedPorts, b.filteredPorts, names, last, o', c', f');
  }

  /** A bucket keeps the ports of its state in their original order, and
      holds nothing else. */
  lemma BucketsKeepOrder(xs: seq<TcpScan.PortResult>, ys: seq<TcpScan.PortResult>, st: PortState)
    ensures Names(TcpScan.Select(xs + ys, st)) == Names(TcpScan.Select(xs, st)) + Names(TcpScan.Select(ys, st))
    ensures forall p :: p in Names(TcpScan.Select(xs, st)) <==> exists r :: r in xs && r.state == st && r.port == p
  {
    TcpScan.SelectConcat(xs, ys, st);
    NamesConcat(TcpScan.Select(xs, st), TcpScan.Select(ys, st));
    TcpScan.SelectMembers(xs, st);
    var sel := TcpScan.Select(xs, st);
    forall p ensures p in Names(sel) <==> exists r :: r in xs && r.state == st && r.port == p {
      if p in Names(sel) {
        var k :| 0 <= k < |sel| && Names(sel)[k] == p;
        assert sel[k] in sel;
      }
      if exists r :: r in xs && r.state == st && r.port == p {
        var r :| r in xs && r.state == st && r.port == p;
        assert r in sel;
        var k :| 0 <= k < |sel| && sel[k] == r;
        assert Names(sel)[k] == p;
      }
    }
  }

  // ---------------------------------------------------------------------
  // The scan of one target

  /** `syn_scan`, as a value: the classification and the port-list order
      are those of the other TCP scanner. */
  function ScanOf(target: string, spec: string, connects: (string, nat) -> ConnectOutcome): SynScanResult {
    Buckets(TcpScan.Results(target, Expand(spec), connects))
  }

  /** `syn_scan`: three empty buckets for an empty port list; otherwise
      one connect per port and the port strings bucketed by state. */
  method SynScan(target: string, spec: string, connects: (string, nat) -> ConnectOutcome) returns (scan: SynScanResult)
    ensures scan == ScanOf(target, spec, connects)
  {
    var portList := ParsePorts(spec);
    if portList == [] {
      return SynScanResult([], [], []);
    }
    var results := TcpScan.ConnectAll(target, portList, connects);
    scan := Bucket(results);
  }

  /** An empty port list gives three empty buckets; otherwise there is one
      port string per listed port. */
  lemma ScanSizes(target: string, spec: string, connects: (string, nat) -> ConnectOutcome)
    ensures Expand(spec) == [] ==> ScanOf(target, spec, connects) == SynScanResult([], [], [])
    ensures var s := ScanOf(target, spec, connects);
      multiset(s.openPorts) + multiset(s.closedPorts) + multiset(s.filteredPorts) ==
      multiset(seq(|Expand(spec)|, k requires 0 <= k < |Expand(spec)| => NatToString(Expand(spec)[k])))
  {
    var results := TcpScan.Results(target, Expand(spec), connects);
    BucketsPartition(results);
    assert Names(results) == seq(|Expand(spec)|, k requires 0 <= k < |Expand(spec)| => NatToString(Expand(spec)[k]));
  }

  // ---------------------------------------------------------------------
  // The port map shown

  /** Each port in turn inserted with state `st`, over `m`. */
  function InsertAll(m: map<string, PortState>, ports: seq<string>, st: PortState): map<string, PortState>
    decreases |ports|
  {
    if ports == [] then m else InsertAll(m, ports[..|ports| - 1], st)[ports[|ports| - 1] := st]
  }

  /** One of the inserting loops of `exec`. */
  method InsertPorts(m: map<string, PortState>, ports: seq<string>, st: PortState) returns (r: map<string, PortState>)
    ensures r == InsertAll(m, ports, st)
  {
    r := m;
    var i := 0;
    while i < |ports|
      invariant 0 <= i <= |ports|
      invariant r == InsertAll(m, ports[..i], st)
    {
      assert ports[..i + 1][..i] == ports[..i];
      r := r[ports[i] := st];
      i := i + 1;
    }
    assert ports[..i] == ports;
  }

  /** The inserted ports map to `st`, and every other key keeps its
      entry. */
  lemma {:induction false} InsertAllEntries(m: map<string, PortState>, ports: seq<string>, st: PortState)
    ensures InsertAll(m, ports, st).Keys == m.Keys + set p | p in ports
    ensures forall p :: p in ports ==> InsertAll(m, ports, st)[p] == st
    ensures forall p :: p in m && p !in ports ==> InsertAll(m, ports, st)[p] == m[p]
    decreases |ports|
  {
    if ports != [] {
      var init := ports[..|ports| - 1];
      InsertAllEntries(m, init, st);
      assert ports == init + [ports[|ports| - 1]];
    }
  }

  /** The map `exec` builds for a target: the open ports, and in verbose
      mode the closed and then the filtered ports as well. */
  function DisplayMap(scan: SynScanResult, verbose: bool): map<string, PortState> {
    var m := InsertAll(map[], scan.openPorts, Open);
    if verbose then InsertAll(InsertAll(m, scan.closedPorts, Closed), scan.filteredPorts, Filtered) else m
  }

  /** The map-building part of `exec`. */
  method BuildDisplayMap(scan: SynScanResult, verbose: bool) returns (m: map<string, PortState>)
    ensures m == DisplayMap(scan, verbose)
  {
    m := InsertPorts(map[], scan.openPorts, Open);
    if verbose {
      m := InsertPorts(m, scan.closedPorts, Closed);
      m := InsertPorts(m, scan.filteredPorts, Filtered);
    }
  }

  /** Without the verbose flag only open ports are shown, every one of
      them. */
  lemma DisplayQuiet(scan: SynScanResult)
    ensures DisplayMap(scan, false).Keys == set p | p in scan.openPorts
    ensures forall p :: p in DisplayMap(scan, false) ==> DisplayMap(scan, false)[p] == Open
  {
    InsertAllEntries(map[], scan.openPorts, Open);
  }

  /** With it every scanned port is shown; a port in several buckets shows
      its filtered state over its closed one over its open one. */
  lemma DisplayVerbose(scan: SynScanResult)
    ensures DisplayMap(scan, true).Keys ==
      (set p | p in scan.openPorts) + (set p | p in scan.closedPorts) + (set p | p in scan.filteredPorts)
    ensures forall p :: p in scan.filteredPorts ==> DisplayMap(scan, true)[p] == Filtered
    ensures forall p :: p in scan.closedPorts && p !in scan.filteredPorts ==> DisplayMap(scan, true)[p] == Closed
    ensures forall p :: p in scan.openPorts && p !in scan.closedPorts && p !in scan.filteredPorts ==>
      DisplayMap(scan, true)[p] == Open
  {
    var m := InsertAll(map[], scan.openPorts, Open);
    InsertAllEntries(map[], scan.openPorts, Open);
    InsertAllEntries(m, scan.closedPorts, Closed);
    InsertAllEntries(InsertAll(m, scan.closedPorts, Closed), scan.filteredPorts, Filtered);
  }

  /** What `exec` does with a target's map: an empty map is reported as
      having no ports to display (silently with JSON output); otherwise it
      is printed as a table, or written to the JSON file. */
  datatype Shown = NoPortsToDisplay | Silent | Table(ports: map<string, PortState>) | JsonFile(file: string, ports: map<string, PortState>)

  /** The display branch of `exec`. */
  function Show(m: map<string, PortState>, json: Option<string>): (r: Shown)
    ensures (r.Table? || r.JsonFile?) <==> m != map[]
    ensures (r.Table? || r.JsonFile?) ==> r.ports == m
    ensures r.JsonFile? || r.Silent? <==> json.Some?
  {
    if m == map[] then (if json.None? then NoPortsToDisplay else Silent)
    else match json
      case Some(file) => JsonFile(file, m)
      case None => Table(m)
  }

  // ---------------------------------------------------------------------
  // Targets

  /** The pieces of a lookup answer that are addresses once trimmed, in
      order. */
  function ValidPieces(pieces: seq<string>, validIp: string -> bool): seq<string>
    decreases |pieces|
  {
    if pieces == [] then []
    else
      var ip := Trim(pieces[|pieces| - 1]);
      ValidPieces(pieces[..|pieces| - 1], validIp) + (if validIp(ip) then [ip] else [])
  }

  /** The addresses a target stands for: itself when it is an address;
      otherwise every piece of its lookup answer, split at `", "` and
      trimmed, that is an address. */
  function Addresses(target: string, validIp: string -> bool, resolve: string -> Result<string, string>): Result<seq<string>, string> {
    if validIp(target) then Ok([target])
    else match resolve(target)
      case Err(e) => Err(e)
      case Ok(ips) => Ok(ValidPieces(SplitOn(ips, ", "), validIp))
  }

  /** The resolution loop of `exec`: the addresses of the targets, in
      order; a failed lookup ends it with its error. */
  function ResolveAll(targets: seq<string>, validIp: string -> bool, resolve: string -> Result<string, string>): Result<seq<string>, string>
    decreases |targets|
  {
    if targets == [] then Ok([])
    else match ResolveAll(targets[..|targets| - 1], validIp, resolve)
      case Err(e) => Err(e)
      case Ok(addrs) =>
        match Addresses(targets[|targets| - 1], validIp, resolve)
        case Err(e) => Err(e)
        case Ok(more) => Ok(addrs + more)
  }

  /** One more piece keeps the earlier pieces' addresses and adds its own
      when it is one. */
  lemma ValidPiecesSnoc(pieces: seq<string>, i: nat, validIp: string -> bool)
    requires i < |pieces|
    ensures validIp(Trim(pieces[i])) ==>
      ValidPieces(pieces[..i + 1], validIp) == ValidPieces(pieces[..i], validIp) + [Trim(pieces[i])]
    ensures !validIp(Trim(pieces[i])) ==>
      ValidPieces(pieces[..i + 1], validIp) == ValidPieces(pieces[..i], validIp)
  {
    assert pieces[..i + 1][..i] == pieces[..i];
  }

  /** The inner loop over the pieces of one lookup answer. */
  method KeepValid(before: seq<string>, pieces: seq<string>, validIp: string -> bool) returns (kept: seq<string>)
    ensures kept == before + ValidPieces(pieces, validIp)
  {
    kept := before;
    var i := 0;
    while i < |pieces|
      invariant 0 <= i <= |pieces|
      invariant kept == before + ValidPieces(pieces[..i], validIp)
    {
      ValidPiecesSnoc(pieces, i, validIp);
      var ip := Trim(pieces[i]);
      if validIp(ip) {
        AppendSnoc(before, ValidPieces(pieces[..i], validIp), ip);
        kept := kept + [ip];
      }
      i := i + 1;
    }
    assert pieces[..i] == pieces;
  }

  /** The resolution loop of `exec`. */
  method ResolveTargets(targets: seq<string>, validIp: string -> bool, resolve: string -> Result<string, string>)
    returns (r: Result<seq<string>, string>)
    ensures r == ResolveAll(targets, validIp, resolve)
  {
    var addrs: seq<string> := [];
    var i := 0;
    while i < |targets|
      invariant 0 <= i <= |targets|
      invariant ResolveAll(targets[..i], validIp, resolve) == Ok(addrs)
    {
      assert targets[..i + 1][..i] == targets[..i];
      var target := targets[i];
      if validIp(target) {
        addrs := addrs + [target];
      } else {
        var answer := resolve(target);
        if answer.Err? {
          ResolveErrPersists(targets, i + 1, validIp, resolve);
          return Err(answer.error);
        }
        addrs := KeepValid(addrs, SplitOn(answer.value, ", "), validIp);
      }
      i := i + 1;
    }
    assert targets[..i] == targets;
    return Ok(addrs);
  }

  /** Once a lookup has failed, the resolution fails with its error. */
  lemma {:induction false} ResolveErrPersists(targets: seq<string>, i: nat, validIp: string -> bool,
                                              resolve: string -> Result<string, string>)
    requires i <= |targets| && ResolveAll(targets[..i], validIp, resolve).Err?
    ensures ResolveAll(targets, validIp, resolve) == ResolveAll(targets[..i], validIp, resolve)
    decreases |targets|
  {
    if i < |targets| {
      var init := targets[..|targets| - 1];
      assert init[..i] == targets[..i];
      ResolveErrPersists(init, i, validIp, resolve);
    } else {
      assert targets[..i] == targets;
    }
  }

  /** A piece is kept exactly when it is an address once trimmed: every
      such piece is kept, and nothing else is. */
  lemma ValidPiecesKept(pieces: seq<string>, validIp: string -> bool)
    ensures forall k :: 0 <= k < |pieces| && validIp(Trim(pieces[k])) ==> Trim(pieces[k]) in ValidPieces(pieces, validIp)
    ensures forall a :: a in ValidPieces(pieces, validIp) ==> validIp(a)
  {
    ValidPiecesComplete(pieces, validIp);
    ValidPiecesSound(pieces, validIp);
  }

  /** Every piece that is an address once trimmed is kept. */
  lemma {:induction false} ValidPiecesComplete(pieces: seq<string>, validIp: string -> bool)
    ensures forall k :: 0 <= k < |pieces| && validIp(Trim(pieces[k])) ==> Trim(pieces[k]) in ValidPieces(pieces, validIp)
    decreases |pieces|
  {
    if pieces != [] {
      var n := |pieces| - 1;
      var init := pieces[..n];
      ValidPiecesComplete(init, validIp);
      var last := Trim(pieces[n]);
      var kept, before := ValidPieces(pieces, validIp), ValidPieces(init, validIp);
      assert kept == before + if validIp(last) then [last] else [];
      forall k | 0 <= k < |pieces| && validIp(Trim(pieces[k]))
        ensures Trim(pieces[k]) in kept
      {
        if k < n {
          assert init[k] == pieces[k];
          assert Trim(init[k]) in before;
        } else {
          assert kept[|before|] == last;
        }
      }
    }
  }

  /** Only addresses are kept. */
  lemma {:induction false} ValidPiecesSound(pieces: seq<string>, validIp: string -> bool)
    ensures forall a :: a in ValidPieces(pieces, validIp) ==> validIp(a)
    decreases |pieces|
  {
    if pieces != [] {
      var n := |pieces| - 1;
      ValidPiecesSound(pieces[..n], validIp);
      var last := Trim(pieces[n]);
      assert ValidPieces(pieces, validIp) == ValidPieces(pieces[..n], validIp) + if validIp(last) then [last] else [];
    }
  }

  /** Every kept address is a trimmed piece of the answer. */
  lemma {:induction false} ValidPieceOrigin(pieces: seq<string>, validIp: string -> bool, a: string) returns (k: nat)
    requires a in ValidPieces(pieces, validIp)
    ensures k < |pieces| && Trim(pieces[k]) == a
    decreases |pieces|
  {
    var init := pieces[..|pieces| - 1];
    if a in ValidPieces(init, validIp) {
      k := ValidPieceOrigin(init, validIp, a);
      assert init[k] == pieces[k];
    } else {
      k := |pieces| - 1;
    }
  }

  /** Every address a name resolves to is scanned, not only the first:
      the addresses of all targets, in order, each one valid. */
  lemma {:induction false} ResolveAllAddresses(targets: seq<string>, validIp: string -> bool, resolve: string -> Result<string, string>)
    ensures ResolveAll(targets, validIp, resolve).Ok? <==>
      forall k :: 0 <= k < |targets| ==> Addresses(targets[k], validIp, resolve).Ok?
    ensures ResolveAll(targets, validIp, resolve).Ok? ==>
      forall a :: a in ResolveAll(targets, validIp, resolve).value ==> validIp(a)
  {
    ResolveAllOk(targets, validIp, resolve);
    ResolveAllValid(targets, validIp, resolve);
  }

  /** Resolution succeeds exactly when every target's lookup does. */
  lemma {:induction false} ResolveAllOk(targets: seq<string>, validIp: string -> bool, resolve: string -> Result<string, string>)
    ensures ResolveAll(targets, validIp, resolve).Ok? <==>
      forall k :: 0 <= k < |targets| ==> Addresses(targets[k], validIp, resolve).Ok?
    decreases |targets|
  {
    if targets != [] {
      var n := |targets| - 1;
      var init := targets[..n];
      ResolveAllOk(init, validIp, resolve);
      assert forall k :: 0 <= k < n ==> init[k] == targets[k];
      assert ResolveAll(targets, validIp, resolve).Ok? <==>
        ResolveAll(init, validIp, resolve).Ok? && Addresses(targets[n], validIp, resolve).Ok?;
    }
  }

  /** Every resolved address is valid. */
  lemma {:induction false} ResolveAllValid(targets: seq<string>, validIp: string -> bool, resolve: string -> Result<string, string>)
    ensures ResolveAll(targets, validIp, resolve).Ok? ==>
      forall a :: a in ResolveAll(targets, validIp, resolve).value ==> validIp(a)
    decreases |targets|
  {
    if targets != [] && ResolveAll(targets, validIp, resolve).Ok? {
      var n := |targets| - 1;
      var init := targets[..n];
      var last := targets[n];
      ResolveAllValid(init, validIp, resolve);
      var addrs, more := ResolveAll(init, validIp, resolve).value, Addresses(last, validIp, resolve).value;
      assert ResolveAll(targets, validIp, resolve).value == addrs + more;
      if !validIp(last) {
        ValidPiecesSound(SplitOn(resolve(last).value, ", "), validIp);
      }
    }
  }

  // ---------------------------------------------------------------------
  // Semaphores and the command

  /** The permits of the target semaphore, `min(threads, targets.len())`;
      each target's port semaphore has `threads`. */
  function TargetPermits(threads: nat, targetCount: nat): (n: nat)
    ensures n <= threads && n <= targetCount
    ensures n == threads || n == targetCount
  {
    if threads < targetCount then threads else targetCount
  }

  /** What `exec` shows for one scanned address. */
  datatype TargetDisplay = TargetDisplay(target: string, shown: Shown)

  /** What `exec` shows for one address, given its scan. */
  function Display(target: string, scan: SynScanResult, verbose: bool, json: Option<string>): TargetDisplay {
    TargetDisplay(target, Show(DisplayMap(scan, verbose), json))
  }

  /** The scan of every address, in order. */
  function Scans(addrs: seq<string>, spec: string, connects: (string, nat) -> ConnectOutcome): (r: seq<SynScanResult>)
    ensures |r| == |addrs|
  {
    seq(|addrs|, k requires 0 <= k < |addrs| => ScanOf(addrs[k], spec, connects))
  }

  /** What `exec` shows for each address, given the scans. */
  function Displays(addrs: seq<string>, scans: seq<SynScanResult>, verbose: bool, json: Option<string>): (r: seq<TargetDisplay>)
    requires |scans| == |addrs|
    ensures |r| == |addrs|
  {
    seq(|addrs|, k requires 0 <= k < |addrs| => Display(addrs[k], scans[k], verbose, json))
  }

  /** `exec`, up to printing: resolve, then scan and show every address in
      order. */
  function ExecOutcome(targets: seq<string>, spec: string, verbose: bool, json: Option<string>,
                       validIp: string -> bool, resolve: string -> Result<string, string>,
                       connects: (string, nat) -> ConnectOutcome): Result<seq<TargetDisplay>, string> {
    match ResolveAll(targets, validIp, resolve)
    case Err(e) => Err(e)
    case Ok(addrs) => Ok(Displays(addrs, Scans(addrs, spec, connects), verbose, json))
  }

  /** The per-target task of `exec`: scan, then show. */
  method ScanAndShow(target: string, spec: string, verbose: bool, json: Option<string>,
                     connects: (string, nat) -> ConnectOutcome, ghost scan: SynScanResult) returns (d: TargetDisplay)
    requires scan == ScanOf(target, spec, connects)
    ensures d == Display(target, scan, verbose, json)
  {
    var s := SynScan(target, spec, connects);
    var m := BuildDisplayMap(s, verbose);
    d := TargetDisplay(target, Show(m, json));
  }

  /** The spawning and collecting loops of `exec`, one address after the
      other; `scans` are the scans the loop performs. */
  method ShowAll(addrs: seq<string>, spec: string, verbose: bool, json: Option<string>,
                 connects: (string, nat) -> ConnectOutcome, ghost scans: seq<SynScanResult>) returns (shown: seq<TargetDisplay>)
    requires |scans| == |addrs|
    requires forall k :: 0 <= k < |addrs| ==> scans[k] == ScanOf(addrs[k], spec, connects)
    ensures shown == Displays(addrs, scans, verbose, json)
  {
    ghost var all := Displays(addrs, scans, verbose, json);
    shown := [];
    var i := 0;
    while i < |addrs|
      invariant 0 <= i <= |addrs|
      invariant shown == all[..i]
    {
      var d := ScanAndShow(addrs[i], spec, verbose, json, connects, scans[i]);
      assert all[i] == d;
      PrefixSnoc(all, i);
      shown := shown + [d];
      i := i + 1;
    }
    assert all[..|addrs|] == all;
  }

  /** `exec`. */
  method Exec(targets: seq<string>, spec: string, verbose: bool, json: Option<string>,
              validIp: string -> bool, resolve: string -> Result<string, string>,
              connects: (string, nat) -> ConnectOutcome) returns (r: Result<seq<TargetDisplay>, string>)
    ensures r == ExecOutcome(targets, spec, verbose, json, validIp, resolve, connects)
  {
    var resolved := ResolveTargets(targets, validIp, resolve);
    if resolved.Err? {
      return Err(resolved.error);
    }
    var shown := ShowAll(resolved.value, spec, verbose, json, connects, Scans(resolved.value, spec, connects));
    return Ok(shown);
  }

  /** Without the verbose flag, every map shown holds open ports only. */
  lemma ExecQuiet(targets: seq<string>, spec: string, json: Option<string>,
                  validIp: string -> bool, resolve: string -> Result<string, string>,
                  connects: (string, nat) -> ConnectOutcome, k: nat)
    requires ExecOutcome(targets, spec, false, json, validIp, resolve, connects).Ok?
    requires k < |ExecOutcome(targets, spec, false, json, validIp, resolve, connects).value|
    requires ExecOutcome(targets, spec, false, json, validIp, resolve, connects).value[k].shown.Table?
    ensures var m := ExecOutcome(targets, spec, false, json, validIp, resolve, connects).value[k].shown.ports;
      forall p :: p in m ==> m[p] == Open
  {
    var addrs := ResolveAll(targets, validIp, resolve).value;
    DisplayQuiet(ScanOf(addrs[k], spec, connects));
  }
}
