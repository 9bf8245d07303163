/**
 * The TCP connect scanner (src/core/tcp.rs): classifying connect outcomes
 * into port states, the three state buckets of `syn_scan`, the port map
 * `exec` builds from them, and the resolution of the targets.
 *
 * Every connect is an input: `connects(target, k)` is the outcome of the
 * connect to the `k`-th port of the port list of `target`.
 */
module TcpScan {
  import opened Wrappers
  import opened Text
  import opened Net
  import opened PortSpec

  // ---------------------------------------------------------------------
  // Classification

  /** The state a connect error stands for: by its kind first, then, for
      any other kind, by its lower-cased message. */
  function ClassifyError(kind: ErrorKind, message: string): PortState {
    match kind
    case ConnectionRefused => Closed
    case TimedOut => Filtered
    case PermissionDenied => Filtered
    case NetworkUnreachable => Filtered
    case HostUnreachable => Filtered
    case OtherKind =>
      var msg := ToLower(message);
      if Contains(msg, "refused") then Closed
      else if Contains(msg, "timeout") || Contains(msg, "unreachable") || Contains(msg, "filtered") then Filtered
      else Closed
  }

  /** The state of one port from the outcome of its connect. */
  function ConnectState(outcome: ConnectOutcome): PortState {
    match outcome
    case Connected => Open
    case ConnectFailed(kind, message) => ClassifyError(kind, message)
    case DeadlineElapsed => Filtered
  }

  /** Whether a lower-cased message reads like a filtered port. */
  predicate SaysFiltered(msg: string) {
    Contains(msg, "timeout") || Contains(msg, "unreachable") || Contains(msg, "filtered")
  }

  /** A port is open exactly when the connect succeeded; it is filtered
      exactly when the deadline elapsed, the error kind is one of the four
      filtering kinds, or an error of another kind says so in its message
      without saying "refused"; every other error means closed. */
  lemma ConnectStateTable(outcome: ConnectOutcome)
    ensures ConnectState(outcome) == Open <==> outcome.Connected?
    ensures ConnectState(outcome) == Filtered <==>
      || outcome.DeadlineElapsed?
      || (outcome.ConnectFailed? && outcome.kind in {TimedOut, PermissionDenied, NetworkUnreachable, HostUnreachable})
      || (outcome.ConnectFailed? && outcome.kind == OtherKind &&
          !Contains(ToLower(outcome.message), "refused") && SaysFiltered(ToLower(outcome.message)))
    ensures ConnectState(outcome) == Closed <==>
      outcome.ConnectFailed? &&
      (outcome.kind == ConnectionRefused ||
       (outcome.kind == OtherKind &&
        (Contains(ToLower(outcome.message), "refused") || !SaysFiltered(ToLower(outcome.message)))))
  {
  }

  /** "refused" is checked first: it decides even when the message also
      mentions a timeout. */
  lemma RefusedWins(message: string)
    requires Contains(ToLower(message), "refused")
    ensures ClassifyError(OtherKind, message) == Closed
  {
  }

  /** The message test ignores the case of ASCII letters. */
  lemma ClassifyIgnoresCase(kind: ErrorKind, message: string)
    ensures ClassifyError(kind, ToLower(message)) == ClassifyError(kind, message)
  {
    ToLowerIdempotent(message);
  }

  // ---------------------------------------------------------------------
  // Buckets

  /** `PortResult`: the port as text and its state. */
  datatype PortResult = PortResult(port: string, state: PortState)

  /** `SynScanResult`. */
  datatype SynScanResult = SynScanResult(openPorts: seq<PortResult>, closedPorts: seq<PortResult>, filteredPorts: seq<PortResult>)

  /** The results in state `st`, in their original order. */
  function Select(results: seq<PortResult>, st: PortState): seq<PortResult> {
    if results == [] then []
    else Select(results[..|results| - 1], st) +
         (if results[|results| - 1].state == st then [results[|results| - 1]] else [])
  }

  function Buckets(results: seq<PortResult>): SynScanResult {
    SynScanResult(Select(results, Open), Select(results, Closed), Select(results, Filtered))
  }

  lemma SelectSnoc(results: seq<PortResult>, st: PortState, i: nat)
    requires i < |results|
    ensures Select(results[..i + 1], st) == Select(results[..i], st) + (if results[i].state == st then [results[i]] else [])
  {
    assert results[..i + 1][..i] == results[..i];
  }

  /** The loop of `syn_scan` that pushes each result into the bucket of its
      state. */
  method Bucket(results: seq<PortResult>) returns (scan: SynScanResult)
    ensures scan == Buckets(results)
  {
    var openPorts, closedPorts, filteredPorts := [], [], [];
    var i := 0;
    while i < |results|
      invariant 0 <= i <= |results|
      invariant openPorts == Select(results[..i], Open)
      invariant closedPorts == Select(results[..i], Closed)
      invariant filteredPorts == Select(results[..i], Filtered)
    {
      SelectSnoc(results, Open, i);
      SelectSnoc(results, Closed, i);
      SelectSnoc(results, Filtered, i);
      var result := results[i];
      match result.state {
        case Open => openPorts := openPorts + [result];
        case Closed => closedPorts := closedPorts + [result];
        case Filtered => filteredPorts := filteredPorts + [result];
      }
      i := i + 1;
    }
    assert results[..i] == results;
    scan := SynScanResult(openPorts, closedPorts, filteredPorts);
  }

  /** Bucketing keeps the order: the buckets of `xs + ys` are those of `xs`
      followed by those of `ys`. */
  lemma {:induction false} SelectConcat(xs: seq<PortResult>, ys: seq<PortResult>, st: PortState)
    ensures Select(xs + ys, st) == Select(xs, st) + Select(ys, st)
    decreases |ys|
  {
    if ys == [] {
      assert xs + ys == xs;
    } else {
      var init := ys[..|ys| - 1];
      assert (xs + ys)[..|xs + ys| - 1] == xs + init;
      SelectConcat(xs, init, st);
    }
  }

  /** Appending one result to the results appends it to the bucket of
      its state and to no other. */
  lemma BucketsAppend(o: seq<PortResult>, c: seq<PortResult>, f: seq<PortResult>, init: seq<PortResult>, last: PortResult,
                      o': seq<PortResult>, c': seq<PortResult>, f': seq<PortResult>)
    requires multiset(o) + multiset(c) + multiset(f) == multiset(init)
    requires o' == o + (if last.state == Open then [last] else [])
    requires c' == c + (if last.state == Closed then [last] else [])
    requires f' == f + (if last.state == Filtered then [last] else [])
    ensures multiset(o') + multiset(c') + multiset(f') == multiset(init + [last])
  {
    assert multiset(init + [last]) == multiset(init) + multiset{last};
    match last.state {
      case Open => assert multiset(o') == multiset(o) + multiset{last} && c' == c && f' == f;
      case Closed => assert multiset(c') == multiset(c) + multiset{last} && o' == o && f' == f;
      case Filtered => assert multiset(f') == multiset(f) + multiset{last} && o' == o && c' == c;
    }
  }

  /** Each result lands in exactly one bucket: the three buckets together
      are a rearrangement of the results, so their sizes add up to the
      number of results. */
  lemma {:induction false} BucketsPartition(results: seq<PortResult>)
    ensures multiset(Select(results, Open)) + multiset(Select(results, Closed)) + multiset(Select(results, Filtered)) == multiset(results)
    ensures |Select(results, Open)| + |Select(results, Closed)| + |Select(results, Filtered)| == |results|
    decreases |results|
  {
    if results != [] {
      var init := results[..|results| - 1];
      var last := results[|results| - 1];
      BucketsPartition(init);
      assert results == init + [last];
      BucketsAppend(Select(init, Open), Select(init, Closed), Select(init, Filtered), init, last,
                    Select(results, Open), Select(results, Closed), Select(results, Filtered));
    }
    assert |multiset(results)| == |results|;
  }

  /** A bucket holds exactly the results in its state. */
  lemma {:induction false} SelectMembers(results: seq<PortResult>, st: PortState)
    ensures forall r :: r in Select(results, st) <==> r in results && r.state == st
    decreases |results|
  {
    if results != [] {
      var init := results[..|results| - 1];
      SelectMembers(init, st);
      assert results == init + [results[|results| - 1]];
    }
  }

  // ---------------------------------------------------------------------
  // The scan of one target

  /** The result each port task produces, in port-list order. */
  function Results(target: string, ports: seq<Port>, connects: (string, nat) -> ConnectOutcome): (r: seq<PortResult>)
    ensures |r| == |ports|
    ensures forall k :: 0 <= k < |ports| ==> r[k] == PortResult(NatToString(ports[k]), ConnectState(connects(target, k)))
  {
    seq(|ports|, k requires 0 <= k < |ports| => PortResult(NatToString(ports[k]), ConnectState(connects(target, k))))
  }

  /** `syn_scan`, as a value. */
  function ScanOf(target: string, spec: string, connects: (string, nat) -> ConnectOutcome): SynScanResult {
    Buckets(Results(target, Expand(spec), connects))
  }

  /** `syn_scan`: parses the port list, returns three empty buckets when it
      is empty, and otherwise connects to every port and buckets the
      results in port-list order. */
  method SynScan(target: string, spec: string, connects: (string, nat) -> ConnectOutcome) returns (scan: SynScanResult)
    ensures scan == ScanOf(target, spec, connects)
  {
    var portList := ParsePorts(spec);
    if portList == [] {
      return SynScanResult([], [], []);
    }
    var results := ConnectAll(target, portList, connects);
    scan := Bucket(results);
  }

  /** The spawning loop of `syn_scan` together with the awaiting of the
      handles: one result per port, in port-list order. */
  method ConnectAll(target: string, portList: seq<Port>, connects: (string, nat) -> ConnectOutcome) returns (results: seq<PortResult>)
    ensures results == Results(target, portList, connects)
  {
    results := [];
    var k := 0;
    while k < |portList|
      invariant 0 <= k <= |portList|
      invariant |results| == k
      invariant forall j :: 0 <= j < k ==> results[j] == PortResult(NatToString(portList[j]), ConnectState(connects(target, j)))
    {
      results := results + [PortResult(NatToString(portList[k]), ConnectState(connects(target, k)))];
      k := k + 1;
    }
  }

  /** An empty port list gives three empty buckets. */
  lemma ScanEmpty(target: string, spec: string, connects: (string, nat) -> ConnectOutcome)
    requires Expand(spec) == []
    ensures ScanOf(target, spec, connects) == SynScanResult([], [], [])
  {
    assert Results(target, Expand(spec), connects) == [];
  }

  // ---------------------------------------------------------------------
  // The port map

  /** The map after inserting each result in turn, a later one overwriting
      an earlier one with the same port. */
  function Insert(m: map<string, PortState>, results: seq<PortResult>): map<string, PortState> {
    if results == [] then m
    else Insert(m, results[..|results| - 1])[results[|results| - 1].port := results[|results| - 1].state]
  }

  /** The ports of some results. */
  function Ports(results: seq<PortResult>): set<string> {
    set r | r in results :: r.port
  }

  /** The port map of `exec`: the open, then the closed, then the filtered
      results inserted into an empty map. */
  function PortsMapOf(scan: SynScanResult): map<string, PortState> {
    Insert(map[], scan.openPorts + scan.closedPorts + scan.filteredPorts)
  }

  /** The loop of `exec` over the chained buckets. */
  method PortsMap(scan: SynScanResult) returns (portsMap: map<string, PortState>)
    ensures portsMap == PortsMapOf(scan)
  {
    var all := scan.openPorts + scan.closedPorts + scan.filteredPorts;
    portsMap := map[];
    var i := 0;
    while i < |all|
      invariant 0 <= i <= |all|
      invariant portsMap == Insert(map[], all[..i])
    {
      assert all[..i + 1][..i] == all[..i];
      portsMap := portsMap[all[i].port := all[i].state];
      i := i + 1;
    }
    assert all[..i] == all;
  }

  lemma {:induction false} InsertConcat(m: map<string, PortState>, xs: seq<PortResult>, ys: seq<PortResult>)
    ensures Insert(m, xs + ys) == Insert(Insert(m, xs), ys)
    decreases |ys|
  {
    if ys == [] {
      assert xs + ys == xs;
    } else {
      var init := ys[..|ys| - 1];
      assert (xs + ys)[..|xs + ys| - 1] == xs + init;
      InsertConcat(m, xs, init);
    }
  }

  /** Inserting adds exactly the ports of the results, and leaves the value
      of every other key alone. */
  lemma {:induction false} InsertKeys(m: map<string, PortState>, results: seq<PortResult>)
    ensures Insert(m, results).Keys == m.Keys + Ports(results)
    ensures forall p :: p in m && p !in Ports(results) ==> Insert(m, results)[p] == m[p]
    decreases |results|
  {
    if results != [] {
      var init := results[..|results| - 1];
      InsertKeys(m, init);
      assert results == init + [results[|results| - 1]];
      assert Ports(results) == Ports(init) + {results[|results| - 1].port};
    }
  }

  /** Inserting results that all have state `st` maps each of their ports
      to `st`. */
  lemma {:induction false} InsertUniform(m: map<string, PortState>, results: seq<PortResult>, st: PortState, p: string)
    requires forall r :: r in results ==> r.state == st
    requires p in Ports(results)
    ensures p in Insert(m, results) && Insert(m, results)[p] == st
    decreases |results|
  {
    var init := results[..|results| - 1];
    var last := results[|results| - 1];
    if p != last.port {
      assert results == init + [last];
      assert p in Ports(init);
      InsertUniform(m, init, st, p);
    }
  }

  /** The ports of the results are the ports of the list, as text. */
  lemma ResultsPorts(target: string, ports: seq<Port>, connects: (string, nat) -> ConnectOutcome)
    ensures Ports(Results(target, ports, connects)) == set p | p in ports :: NatToString(p)
  {
    var results := Results(target, ports, connects);
    forall s | s in Ports(results) ensures s in set p | p in ports :: NatToString(p) {
      var r :| r in results && r.port == s;
      var k :| 0 <= k < |results| && results[k] == r;
      assert ports[k] in ports;
    }
    forall s | s in set p | p in ports :: NatToString(p) ensures s in Ports(results) {
      var p :| p in ports && NatToString(p) == s;
      var k :| 0 <= k < |ports| && ports[k] == p;
      assert results[k] in results;
    }
  }

  /** The keys of the port map are exactly the scanned ports as text. */
  lemma PortsMapKeys(target: string, spec: string, connects: (string, nat) -> ConnectOutcome)
    ensures PortsMapOf(ScanOf(target, spec, connects)).Keys == set p | p in Expand(spec) :: NatToString(p)
  {
    var results := Results(target, Expand(spec), connects);
    var scan := ScanOf(target, spec, connects);
    var all := scan.openPorts + scan.closedPorts + scan.filteredPorts;
    InsertKeys(map[], all);
    BucketsPartition(results);
    assert multiset(all) == multiset(scan.openPorts) + multiset(scan.closedPorts) + multiset(scan.filteredPorts);
    SamePorts(all, results);
    ResultsPorts(target, Expand(spec), connects);
  }

  /** Rearranging results does not change their ports. */
  lemma SamePorts(xs: seq<PortResult>, ys: seq<PortResult>)
    requires multiset(xs) == multiset(ys)
    ensures Ports(xs) == Ports(ys)
  {
    assert forall r :: r in xs <==> r in multiset(xs);
    assert forall r :: r in ys <==> r in multiset(ys);
  }

  /** A port listed more than once keeps one state, by the bucket order:
      filtered over closed over open, whatever the order of the port list. */
  lemma PortsMapPrecedence(results: seq<PortResult>, p: string)
    ensures p in Ports(Select(results, Filtered)) ==>
      p in PortsMapOf(Buckets(results)) && PortsMapOf(Buckets(results))[p] == Filtered
    ensures p !in Ports(Select(results, Filtered)) && p in Ports(Select(results, Closed)) ==>
      p in PortsMapOf(Buckets(results)) && PortsMapOf(Buckets(results))[p] == Closed
    ensures (p !in Ports(Select(results, Filtered)) && p !in Ports(Select(results, Closed)) &&
             p in Ports(Select(results, Open))) ==>
      p in PortsMapOf(Buckets(results)) && PortsMapOf(Buckets(results))[p] == Open
  {
    SelectMembers(results, Open);
    SelectMembers(results, Closed);
    SelectMembers(results, Filtered);
    var scan := Buckets(results);
    var m0 := Insert(map[], scan.openPorts);
    var m1 := Insert(m0, scan.closedPorts);
    InsertConcat(map[], scan.openPorts, scan.closedPorts);
    InsertConcat(map[], scan.openPorts + scan.closedPorts, scan.filteredPorts);
    InsertKeys(m1, scan.filteredPorts);
    InsertKeys(m0, scan.closedPorts);
    if p in Ports(scan.filteredPorts) {
      InsertUniform(m1, scan.filteredPorts, Filtered, p);
    } else if p in Ports(scan.closedPorts) {
      InsertUniform(m0, scan.closedPorts, Closed, p);
    } else if p in Ports(scan.openPorts) {
      InsertUniform(map[], scan.openPorts, Open, p);
    }
  }

  // ---------------------------------------------------------------------
  // Targets

  /** The scan targets as addresses, and the original name of each. */
  datatype Resolved = Resolved(targets: seq<string>, mapping: map<string, string>)

  /** One target of the resolution loop: an address is kept as it is; a
      name is resolved, its answer split on `", "`, and the first address,
      trimmed, kept when it is valid. */
  function ResolveStep(acc: Resolved, original: string, validIp: string -> bool,
                       resolve: string -> Result<string, string>): Result<Resolved, string> {
    if validIp(original) then Ok(Resolved(acc.targets + [original], acc.mapping[original := original]))
    else match resolve(original)
      case Err(e) => Err(e)
      case Ok(ips) =>
        var ip := Trim(SplitOn(ips, ", ")[0]);
        if validIp(ip) then Ok(Resolved(acc.targets + [ip], acc.mapping[ip := original])) else Ok(acc)
  }

  /** The resolution loop of `exec`; a failed lookup ends it with its error. */
  function Resolve(originals: seq<string>, validIp: string -> bool, resolve: string -> Result<string, string>): Result<Resolved, string> {
    if originals == [] then Ok(Resolved([], map[]))
    else match Resolve(originals[..|originals| - 1], validIp, resolve)
      case Err(e) => Err(e)
      case Ok(acc) => ResolveStep(acc, originals[|originals| - 1], validIp, resolve)
  }

  /** The resolution loop of `exec`. */
  method ResolveTargets(originals: seq<string>, validIp: string -> bool, resolve: string -> Result<string, string>)
    returns (r: Result<Resolved, string>)
    ensures r == Resolve(originals, validIp, resolve)
  {
    var targets: seq<string> := [];
    var mapping: map<string, string> := map[];
    var i := 0;
    while i < |originals|
      invariant 0 <= i <= |originals|
      invariant Resolve(originals[..i], validIp, resolve) == Ok(Resolved(targets, mapping))
    {
      assert originals[..i + 1][..i] == originals[..i];
      var original := originals[i];
      if validIp(original) {
        targets := targets + [original];
        mapping := mapping[original := original];
      } else {
        var answer := resolve(original);
        if answer.Err? {
          ResolveErrPersists(originals, i + 1, validIp, resolve);
          return Err(answer.error);
        }
        var resolvedIps := SplitOn(answer.value, ", ");
        if |resolvedIps| > 0 {
          var ip := Trim(resolvedIps[0]);
          if validIp(ip) {
            targets := targets + [ip];
            mapping := mapping[ip := original];
          }
        }
      }
      i := i + 1;
    }
    assert originals[..i] == originals;
    return Ok(Resolved(targets, mapping));
  }

  /** Once a lookup has failed, the resolution fails with its error. */
  lemma {:induction false} ResolveErrPersists(originals: seq<string>, i: nat, validIp: string -> bool,
                                              resolve: string -> Result<string, string>)
    requires i <= |originals| && Resolve(originals[..i], validIp, resolve).Err?
    ensures Resolve(originals, validIp, resolve) == Resolve(originals[..i], validIp, resolve)
    decreases |originals|
  {
    if i < |originals| {
      var init := originals[..|originals| - 1];
      assert init[..i] == originals[..i];
      ResolveErrPersists(init, i, validIp, resolve);
    } else {
      assert originals[..i] == originals;
    }
  }

  /** Every target kept is a valid address, there is at most one per
      original, each target has an original name; an address given
      directly is kept as it is. */
  lemma {:induction false} ResolvedTargets(originals: seq<string>, validIp: string -> bool, resolve: string -> Result<string, string>)
    requires Resolve(originals, validIp, resolve).Ok?
    ensures var res := Resolve(originals, validIp, resolve).value;
      && |res.targets| <= |originals|
      && (forall k :: 0 <= k < |res.targets| ==> validIp(res.targets[k]))
      && res.mapping.Keys == set t | t in res.targets
    decreases |originals|
  {
    if originals != [] {
      ResolvedTargets(originals[..|originals| - 1], validIp, resolve);
    }
  }

  /** `t` is the address `original` stands for: itself when it is an
      address, and otherwise the trimmed first `", "` piece of its lookup's
      answer, when that piece is a valid address. */
  predicate ResolvesTo(original: string, t: string, validIp: string -> bool, resolve: string -> Result<string, string>) {
    if validIp(original) then t == original
    else resolve(original).Ok? && t == Trim(SplitOn(resolve(original).value, ", ")[0]) && validIp(t)
  }

  /** Every mapped target is the address of an original, and maps back to
      that original's name. */
  lemma {:induction false} ResolveOrigin(originals: seq<string>, validIp: string -> bool, resolve: string -> Result<string, string>)
    requires Resolve(originals, validIp, resolve).Ok?
    ensures var res := Resolve(originals, validIp, resolve).value;
      forall t :: t in res.mapping ==>
        exists k :: 0 <= k < |originals| && res.mapping[t] == originals[k] && ResolvesTo(originals[k], t, validIp, resolve)
    decreases |originals|
  {
    if originals != [] {
      var n := |originals| - 1;
      var init := originals[..n];
      var o := originals[n];
      ResolveOrigin(init, validIp, resolve);
      var acc := Resolve(init, validIp, resolve).value;
      var res := Resolve(originals, validIp, resolve).value;
      forall t | t in res.mapping
        ensures exists k :: 0 <= k < |originals| && res.mapping[t] == originals[k] && ResolvesTo(originals[k], t, validIp, resolve)
      {
        if t in acc.mapping && res.mapping[t] == acc.mapping[t] {
          var k :| 0 <= k < |init| && acc.mapping[t] == init[k] && ResolvesTo(init[k], t, validIp, resolve);
          assert originals[k] == init[k];
        } else {
          assert res.mapping[t] == o && ResolvesTo(o, t, validIp, resolve);
        }
      }
    }
  }

  /** A successful resolution looked every name up without error. */
  lemma {:induction false} ResolveLookedUp(originals: seq<string>, validIp: string -> bool, resolve: string -> Result<string, string>)
    requires Resolve(originals, validIp, resolve).Ok?
    ensures forall k :: 0 <= k < |originals| && !validIp(originals[k]) ==> resolve(originals[k]).Ok?
    decreases |originals|
  {
    if originals != [] {
      var n := |originals| - 1;
      var init := originals[..n];
      ResolveLookedUp(init, validIp, resolve);
      forall k | 0 <= k < |originals| && !validIp(originals[k])
        ensures resolve(originals[k]).Ok?
      {
        if k < n {
          assert originals[k] == init[k];
        }
      }
    }
  }

  /** A successful resolution keeps the address of every original that has one. */
  lemma {:induction false} ResolveComplete(originals: seq<string>, validIp: string -> bool, resolve: string -> Result<string, string>)
    requires Resolve(originals, validIp, resolve).Ok?
    ensures forall k, t :: 0 <= k < |originals| && ResolvesTo(originals[k], t, validIp, resolve) ==>
      t in Resolve(originals, validIp, resolve).value.targets
    decreases |originals|
  {
    if originals != [] {
      var n := |originals| - 1;
      var init := originals[..n];
      ResolveComplete(init, validIp, resolve);
      var acc := Resolve(init, validIp, resolve).value;
      var res := Resolve(originals, validIp, resolve).value;
      forall k, t | 0 <= k < |originals| && ResolvesTo(originals[k], t, validIp, resolve)
        ensures t in res.targets
      {
        if k < n {
          assert originals[k] == init[k];
          assert t in acc.targets;
          assert res.targets[..|acc.targets|] == acc.targets;
        } else {
          assert res.targets == acc.targets + [t];
        }
      }
    }
  }

  /** A name whose first answer is not a valid address adds no target. */
  lemma ResolveSkipsName(originals: seq<string>, i: nat, validIp: string -> bool, resolve: string -> Result<string, string>)
    requires i < |originals| && !validIp(originals[i]) && resolve(originals[i]).Ok?
    requires !validIp(Trim(SplitOn(resolve(originals[i]).value, ", ")[0]))
    ensures Resolve(originals[..i + 1], validIp, resolve) == Resolve(originals[..i], validIp, resolve)
  {
    assert originals[..i + 1][..i] == originals[..i];
  }

  /** A list of addresses is kept whole and each maps to itself. */
  lemma {:induction false} ResolveAddresses(originals: seq<string>, validIp: string -> bool, resolve: string -> Result<string, string>)
    requires forall k :: 0 <= k < |originals| ==> validIp(originals[k])
    ensures Resolve(originals, validIp, resolve).Ok?
    ensures Resolve(originals, validIp, resolve).value.targets == originals
    ensures forall t :: t in Resolve(originals, validIp, resolve).value.mapping ==>
      Resolve(originals, validIp, resolve).value.mapping[t] == t
    decreases |originals|
  {
    if originals != [] {
      ResolveAddresses(originals[..|originals| - 1], validIp, resolve);
    }
  }

  // ---------------------------------------------------------------------
  // All targets

  /** The port map built for one target. */
  datatype TargetReport = TargetReport(target: string, ports: map<string, PortState>)

  /** `exec`, up to display: resolve the targets, scan each, and build its
      port map, in target order. */
  function ExecOutcome(originals: seq<string>, spec: string, validIp: string -> bool,
                       resolve: string -> Result<string, string>,
                       connects: (string, nat) -> ConnectOutcome): Result<seq<TargetReport>, string> {
    match Resolve(originals, validIp, resolve)
    case Err(e) => Err(e)
    case Ok(res) => Ok(Reports(res.targets, spec, connects))
  }

  /** The port maps of the targets, in target order. */
  function Reports(targets: seq<string>, spec: string, connects: (string, nat) -> ConnectOutcome): (r: seq<TargetReport>)
    ensures |r| == |targets|
    ensures forall i :: 0 <= i < |targets| ==> r[i] == Report(targets[i], spec, connects)
  {
    seq(|targets|, i requires 0 <= i < |targets| => Report(targets[i], spec, connects))
  }

  /** The port map of one target. */
  function Report(target: string, spec: string, connects: (string, nat) -> ConnectOutcome): TargetReport {
    TargetReport(target, PortsMapOf(ScanOf(target, spec, connects)))
  }

  /** The body of the reporting loop of `exec` for one target. */
  method ScanTarget(target: string, spec: string, connects: (string, nat) -> ConnectOutcome) returns (report: TargetReport)
    ensures report == Report(target, spec, connects)
  {
    var scan := SynScan(target, spec, connects);
    var portsMap := PortsMap(scan);
    report := TargetReport(target, portsMap);
  }

  /** `exec`: resolves the targets, then scans them one after another. */
  method Exec(originals: seq<string>, spec: string, validIp: string -> bool,
              resolve: string -> Result<string, string>,
              connects: (string, nat) -> ConnectOutcome) returns (r: Result<seq<TargetReport>, string>)
    ensures r == ExecOutcome(originals, spec, validIp, resolve, connects)
  {
    var resolved := ResolveTargets(originals, validIp, resolve);
    if resolved.Err? {
      return Err(resolved.error);
    }
    var reports := ScanTargets(resolved.value.targets, spec, connects);
    return Ok(reports);
  }

  /** The loops of `exec` that scan the targets and build their maps. */
  method ScanTargets(targets: seq<string>, spec: string, connects: (string, nat) -> ConnectOutcome) returns (reports: seq<TargetReport>)
    ensures reports == Reports(targets, spec, connects)
  {
    ghost var all := Reports(targets, spec, connects);
    reports := [];
    var i := 0;
    while i < |targets|
      invariant 0 <= i <= |targets|
      invariant reports == all[..i]
    {
      var report := ScanTarget(targets[i], spec, connects);
      assert all[i] == report;
      PrefixSnoc(all, i);
      reports := reports + [report];
      i := i + 1;
    }
    assert all[..|targets|] == all;
  }

  /** Every target's port map has exactly the scanned ports as keys. */
  lemma ExecKeys(originals: seq<string>, spec: string, validIp: string -> bool,
                 resolve: string -> Result<string, string>, connects: (string, nat) -> ConnectOutcome)
    requires ExecOutcome(originals, spec, validIp, resolve, connects).Ok?
    ensures forall k :: 0 <= k < |ExecOutcome(originals, spec, validIp, resolve, connects).value| ==>
      ExecOutcome(originals, spec, validIp, resolve, connects).value[k].ports.Keys ==
      set p | p in Expand(spec) :: NatToString(p)
  {
    var res := Resolve(originals, validIp, resolve).value;
    forall k | 0 <= k < |res.targets|
      ensures Reports(res.targets, spec, connects)[k].ports.Keys == set p | p in Expand(spec) :: NatToString(p)
    {
      PortsMapKeys(res.targets[k], spec, connects);
    }
  }
}
