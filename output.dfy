/**
 * The result presentation of `src/output.rs`: the port → service table, the
 * rows of the results table (sorted by port number, with state and service
 * strings), the summary counts and the lines reported for a script result.
 * Printing itself is modelled by returning the lines or values printed.
 */
module Output {
  import opened Wrappers
  import opened Text
  import opened Net

  // ---------------------------------------------------------------------
  // get_service_for_port

  /** The ports `get_service_for_port` lists. */
  const KnownPorts: set<string> := {
    "21", "22", "23", "25", "53", "80", "110", "115", "135", "139", "143", "194", "443", "445",
    "993", "995", "1433", "3306", "3389", "5432", "5632", "5900", "25565", "27017", "6379",
    "5672", "8080", "8443", "9200", "5601", "2181", "9092", "11211", "1521", "5984", "7000",
    "8086", "9000", "8888", "3000", "9090", "4444", "8081", "8082", "9999", "10000"}

  /** The service of every port the table does not list. */
  const UnknownService := "unknown"

  /** `get_service_for_port`: an exact match on the port text. */
  function ServiceForPort(port: string): string {
    match port
    case "21" => "ftp"
    case "22" => "ssh"
    case "23" => "telnet"
    case "25" => "smtp"
    case "53" => "dns"
    case "80" => "http"
    case "110" => "pop3"
    case "115" => "sftp"
    case "135" => "rpc"
    case "139" => "netbios"
    case "143" => "imap"
    case "194" => "irc"
    case "443" => "https"
    case "445" => "smb"
    case "993" => "imaps"
    case "995" => "pop3s"
    case "1433" => "mssql"
    case "3306" => "mysql"
    case "3389" => "rdp"
    case "5432" => "postgresql"
    case "5632" => "pcanywhere"
    case "5900" => "vnc"
    case "25565" => "minecraft"
    case "27017" => "mongodb"
    case "6379" => "redis"
    case "5672" => "rabbitmq"
    case "8080" => "http-proxy"
    case "8443" => "https-alt"
    case "9200" => "elasticsearch"
    case "5601" => "kibana"
    case "2181" => "zookeeper"
    case "9092" => "kafka"
    case "11211" => "memcached"
    case "1521" => "oracle"
    case "5984" => "couchdb"
    case "7000" => "cassandra"
    case "8086" => "influxdb"
    case "9000" => "sonarqube"
    case "8888" => "jupyter"
    case "3000" => "grafana"
    case "9090" => "prometheus"
    case "4444" => "selenium"
    case "8081" => "nexus"
    case "8082" => "sonatype"
    case "9999" => "abyss"
    case "10000" => "webmin"
    case _ => UnknownService
  }

  /** Every port the table does not list is reported "unknown". */
  lemma ServiceUnlisted(port: string)
    requires port !in KnownPorts
    ensures ServiceForPort(port) == UnknownService
  {
  }

  /** Some listed ports. */
  lemma ServiceListed()
    ensures ServiceForPort("22") == "ssh"
    ensures ServiceForPort("443") == "https"
    ensures ServiceForPort("10000") == "webmin"
  {
  }

  /** The match is on the text, not on the number: a listed port written
      with a leading zero, a sign or a blank is unknown. */
  lemma ServiceMatchesText()
    ensures ServiceForPort("022") == UnknownService
    ensures ServiceForPort("+22") == UnknownService
    ensures ServiceForPort(" 22") == UnknownService
  {
  }

  // ---------------------------------------------------------------------
  // out_results

  /** The text of the STATE column. */
  function StateString(st: PortState): (s: string)
    ensures s == "open" || s == "closed" || s == "filtered"
    ensures (s == "open") == (st == Open) && (s == "filtered") == (st == Filtered)
  {
    match st
    case Open => "open"
    case Closed => "closed"
    case Filtered => "filtered"
  }

  /** Different states are shown differently. */
  lemma StateStringInjective(a: PortState, b: PortState)
    ensures StateString(a) == StateString(b) <==> a == b
  {
  }

  /** The sort key of a port: the port text parsed as a `u16`, 0 when it
      does not parse. */
  function SortKey(port: string): (k: nat)
    ensures k <= U16Max
    ensures ParseUnsigned(port, U16Max).Some? ==> k == ParseUnsigned(port, U16Max).value
    ensures ParseUnsigned(port, U16Max).None? ==> k == 0
  {
    ParseUnsigned(port, U16Max).UnwrapOr(0)
  }

  /** A port printed by `to_string` sorts by its own number. */
  lemma SortKeyOfNumber(n: nat)
    requires n <= U16Max
    ensures SortKey(NatToString(n)) == n
  {
    ParseNatToString(n, U16Max);
  }

  /** A port of the map as the iteration of `ports.iter()` yields it. */
  type Entry = (string, PortState)

  /** `es` enumerates `m`: one pair per key, each with the key's value. */
  predicate Lists<V(==)>(es: seq<(string, V)>, m: map<string, V>) {
    && |es| == |m|
    && (forall k :: 0 <= k < |es| ==> es[k].0 in m && m[es[k].0] == es[k].1)
    && (set k | 0 <= k < |es| :: es[k].0) == m.Keys
  }

  /** The keys listed by a sequence of pairs. */
  ghost function ListedKeys<V>(es: seq<(string, V)>): set<string> {
    set k | 0 <= k < |es| :: es[k].0
  }

  /** Listing one more pair of `m`, under a key not yet listed, keeps the
      listing faithful to `m` and without repeated keys. */
  lemma ListedSnoc<V>(es: seq<(string, V)>, m: map<string, V>, p: string)
    requires forall k :: 0 <= k < |es| ==> es[k].0 in m && m[es[k].0] == es[k].1
    requires |es| == |ListedKeys(es)|
    requires p in m && p !in ListedKeys(es)
    ensures var xs := es + [(p, m[p])];
      && ListedKeys(xs) == ListedKeys(es) + {p}
      && |xs| == |ListedKeys(xs)|
      && forall k :: 0 <= k < |xs| ==> xs[k].0 in m && m[xs[k].0] == xs[k].1
  {
    var xs := es + [(p, m[p])];
    assert forall k :: 0 <= k < |es| ==> xs[k] == es[k];
    assert xs[|es|] == (p, m[p]);
    assert ListedKeys(xs) == ListedKeys(es) + {p};
  }

  /** `m.iter().collect()`: the pairs of `m` in the map's iteration order,
      which is unspecified and chosen freely here. */
  method Enumerate<V(==)>(m: map<string, V>) returns (es: seq<(string, V)>)
    ensures Lists(es, m)
  {
    es := [];
    var rest := m.Keys;
    ghost var keys: set<string> := {};
    while rest != {}
      invariant keys == ListedKeys(es)
      invariant keys + rest == m.Keys && keys !! rest
      invariant forall k :: 0 <= k < |es| ==> es[k].0 in m && m[es[k].0] == es[k].1
      invariant |es| == |keys|
      decreases |rest|
    {
      var p :| p in rest;
      ListedSnoc(es, m, p);
      es := es + [(p, m[p])];
      keys := keys + {p};
      rest := rest - {p};
    }
    assert keys == m.Keys;
  }

  /** Two enumerations of the same pairs list the same map. */
  lemma ListsPermutation<V>(es: seq<(string, V)>, fs: seq<(string, V)>, m: map<string, V>)
    requires Lists(es, m) && multiset(fs) == multiset(es)
    ensures Lists(fs, m)
  {
    assert |fs| == |multiset(fs)| == |multiset(es)| == |es|;
    forall k | 0 <= k < |fs|
      ensures fs[k].0 in m && m[fs[k].0] == fs[k].1
    {
      assert fs[k] in multiset(es);
      var j :| 0 <= j < |es| && es[j] == fs[k];
    }
    forall p | p in m.Keys
      ensures p in (set k | 0 <= k < |fs| :: fs[k].0)
    {
      var j :| 0 <= j < |es| && es[j].0 == p;
      assert es[j] in multiset(fs);
      var k :| 0 <= k < |fs| && fs[k] == es[j];
    }
  }

  /** Ascending by `key` of the port text. */
  predicate SortedBy(es: seq<Entry>, key: string -> nat) {
    forall i, j :: 0 <= i < j < |es| ==> key(es[i].0) <= key(es[j].0)
  }

  /** Putting `x` at position `j` keeps the pairs sorted when every pair
      before it has no larger key and every pair after it a larger one. */
  lemma InsertSorted(s: seq<Entry>, x: Entry, key: string -> nat, j: nat)
    requires SortedBy(s, key) && j <= |s|
    requires j == 0 || key(s[j - 1].0) <= key(x.0)
    requires forall k :: j <= k < |s| ==> key(s[k].0) > key(x.0)
    ensures SortedBy(s[..j] + [x] + s[j..], key)
  {
    var r := s[..j] + [x] + s[j..];
    forall a, b | 0 <= a < b < |r|
      ensures key(r[a].0) <= key(r[b].0)
    {
      if a < j {
        assert r[a] == s[a];
        assert key(s[a].0) <= key(s[j - 1].0);
      }
      if b > j {
        assert r[b] == s[b - 1];
      }
      if b < j {
        assert r[b] == s[b];
      }
    }
  }

  /** One step of the stable sort: `x` goes after every pair whose key is
      not larger. */
  method InsertBy(s: seq<Entry>, x: Entry, key: string -> nat) returns (r: seq<Entry>)
    requires SortedBy(s, key)
    ensures SortedBy(r, key)
    ensures multiset(r) == multiset(s) + multiset{x}
  {
    var j := |s|;
    while j > 0 && key(s[j - 1].0) > key(x.0)
      invariant 0 <= j <= |s|
      invariant forall k :: j <= k < |s| ==> key(s[k].0) > key(x.0)
    {
      j := j - 1;
    }
    InsertSorted(s, x, key, j);
    InsertMultiset(s, x, j);
    r := s[..j] + [x] + s[j..];
  }

  /** Inserting an element anywhere adds it to the multiset of elements. */
  lemma InsertMultiset<T>(s: seq<T>, x: T, j: nat)
    requires j <= |s|
    ensures multiset(s[..j] + [x] + s[j..]) == multiset(s) + multiset{x}
  {
    assert s[..j] + s[j..] == s;
  }

  /** `sort_by` comparing the keys of the port texts: sorted, and a
      permutation of its input. */
  method SortBy(es: seq<Entry>, key: string -> nat) returns (sorted: seq<Entry>)
    ensures SortedBy(sorted, key)
    ensures multiset(sorted) == multiset(es)
  {
    sorted := [];
    var i := 0;
    while i < |es|
      invariant 0 <= i <= |es|
      invariant SortedBy(sorted, key)
      invariant multiset(sorted) == multiset(es[..i])
    {
      assert es[..i + 1] == es[..i] + [es[i]];
      sorted := InsertBy(sorted, es[i], key);
      i := i + 1;
    }
    assert es[..i] == es;
  }

  /** A row of the results table. */
  datatype Row = Row(port: string, state: string, service: string)

  /** The row of one port. */
  function RowOf(e: Entry): Row {
    Row(e.0, StateString(e.1), ServiceForPort(e.0))
  }

  /** The rows, one per pair, in order. */
  function Rows(es: seq<Entry>): seq<Row> {
    seq(|es|, k requires 0 <= k < |es| => RowOf(es[k]))
  }

  /** The number of ports in state `st` (`values().filter(..).count()`). */
  function Count(ports: map<string, PortState>, st: PortState): nat {
    |set p | p in ports && ports[p] == st|
  }

  /** The three counts of the summary add up to the number of ports. */
  lemma CountsSum(ports: map<string, PortState>)
    ensures Count(ports, Open) + Count(ports, Closed) + Count(ports, Filtered) == |ports|
  {
    var o := set p | p in ports && ports[p] == Open;
    var c := set p | p in ports && ports[p] == Closed;
    var f := set p | p in ports && ports[p] == Filtered;
    assert o !! c && (o + c) !! f;
    assert |o + c| == |o| + |c|;
    assert |o + c + f| == |o + c| + |f|;
    assert o + c + f == ports.Keys;
  }

  /** The summary line. */
  function SummaryLine(ports: map<string, PortState>): string {
    "Summary: " + NatToString(Count(ports, Open)) + " open, " + NatToString(Count(ports, Closed)) +
    " closed, " + NatToString(Count(ports, Filtered)) + " filtered"
  }

  /** What `out_results` prints: one line for an empty map, otherwise the
      heading, the table and the summary. */
  datatype ResultsView =
    | NoPortsFound(message: string)
    | Results(heading: string, rows: seq<Row>, summary: string)

  /** `out_results`; `order` is the order in which the sorted pairs are
      tabulated. */
  method OutResults(ports: map<string, PortState>, protocol: string) returns (r: ResultsView, ghost order: seq<Entry>)
    ensures r.NoPortsFound? <==> ports == map[]
    ensures r.NoPortsFound? ==> r.message == "No ports found for " + ToUpper(protocol) + " scan"
    ensures r.Results? ==> r.heading == "\n" + ToUpper(protocol) + " Scan Results:"
    ensures r.Results? ==> Lists(order, ports) && SortedBy(order, SortKey) && r.rows == Rows(order)
    ensures r.Results? ==> r.summary == SummaryLine(ports)
  {
    order := [];
    if ports == map[] {
      return NoPortsFound("No ports found for " + ToUpper(protocol) + " scan"), order;
    }
    var entries := Enumerate(ports);
    var sorted := SortBy(entries, SortKey);
    ListsPermutation(entries, sorted, ports);
    order := sorted;
    r := Results("\n" + ToUpper(protocol) + " Scan Results:", Rows(sorted), SummaryLine(ports));
  }

  /** The table of a sorted enumeration of the map has one row per port,
      each with the port's state and service, ascending by port number; as
      many rows as the three counts together. */
  lemma TableRows(order: seq<Entry>, ports: map<string, PortState>)
    requires Lists(order, ports) && SortedBy(order, SortKey)
    ensures |Rows(order)| == |ports| == Count(ports, Open) + Count(ports, Closed) + Count(ports, Filtered)
    ensures forall k :: 0 <= k < |order| ==>
      var row := Rows(order)[k];
      row.port in ports && row.state == StateString(ports[row.port]) && row.service == ServiceForPort(row.port)
    ensures forall i, j :: 0 <= i < j < |order| ==> SortKey(Rows(order)[i].port) <= SortKey(Rows(order)[j].port)
  {
    CountsSum(ports);
  }

  // ---------------------------------------------------------------------
  // out_script_result

  /** The fields of a script result. */
  datatype ScriptResult = ScriptResult(scriptName: string, host: string, port: Option<nat>, success: bool,
                                       output: string, error: Option<string>, data: map<string, string>)

  const NoOutputLine := "Script executed successfully (no output)"
  const UnknownErrorLine := "Script failed (unknown error)"

  /** The line printed for one data entry. */
  function DataLine(e: (string, string)): string {
    "  " + e.0 + ": " + e.1
  }

  /** The lines printed for the data entries, in iteration order. */
  function DataLines(es: seq<(string, string)>): (lines: seq<string>)
    ensures |lines| == |es| && forall k :: 0 <= k < |es| ==> lines[k] == DataLine(es[k])
  {
    seq(|es|, k requires 0 <= k < |es| => DataLine(es[k]))
  }

  /** A listing has as many pairs as distinct keys, so no key is listed twice. */
  lemma {:induction false} ListsDistinct<V>(es: seq<(string, V)>, m: map<string, V>)
    requires Lists(es, m)
    ensures forall a, b :: 0 <= a < b < |es| ==> es[a].0 != es[b].0
  {
    forall a, b | 0 <= a < b < |es|
      ensures es[a].0 != es[b].0
    {
      if es[a].0 == es[b].0 {
        var fs := es[..b] + es[b + 1..];
        assert ListedKeys(fs) == ListedKeys(es) by {
          forall key | key in ListedKeys(es)
            ensures key in ListedKeys(fs)
          {
            var k :| 0 <= k < |es| && es[k].0 == key;
            if k < b {
              assert fs[k] == es[k];
            } else if k == b {
              assert fs[a] == es[a];
            } else {
              assert fs[k - 1] == es[k];
            }
          }
        }
        assert |ListedKeys(es)| == |m|;
        ListedKeysBound(fs);
        assert false;
      }
    }
  }

  /** A sequence of pairs lists at most as many keys as it has pairs. */
  lemma {:induction false} ListedKeysBound<V>(es: seq<(string, V)>)
    ensures |ListedKeys(es)| <= |es|
    decreases |es|
  {
    if es != [] {
      var init := es[..|es| - 1];
      ListedKeysBound(init);
      assert ListedKeys(es) == ListedKeys(init) + {es[|es| - 1].0};
    }
  }

  /** The data lines of a listing of `data`: one line per key, each at the
      index of that key's pair and showing its value, and no key twice. */
  lemma DataLinesList(es: seq<(string, string)>, data: map<string, string>)
    requires Lists(es, data)
    ensures |DataLines(es)| == |data|
    ensures forall key :: key in data ==>
      exists k :: 0 <= k < |es| && es[k].0 == key && DataLines(es)[k] == DataLine((key, data[key]))
    ensures forall k :: 0 <= k < |es| ==> es[k].0 in data && DataLines(es)[k] == DataLine((es[k].0, data[es[k].0]))
    ensures forall a, b :: 0 <= a < b < |es| ==> es[a].0 != es[b].0
  {
    ListsDistinct(es, data);
    forall key | key in data
      ensures exists k :: 0 <= k < |es| && es[k].0 == key && DataLines(es)[k] == DataLine((key, data[key]))
    {
      assert key in ListedKeys(es);
      var k :| 0 <= k < |es| && es[k].0 == key;
      assert DataLines(es)[k] == DataLine((key, data[key]));
    }
  }

  /** The lines `out_script_result` prints, with the data entries in the
      order `es`. */
  function ScriptLines(result: ScriptResult, es: seq<(string, string)>): seq<string> {
    if result.success then
      (if result.output != "" then ["Output: " + result.output] else []) +
      (if result.data != map[] then ["Data:"] + DataLines(es) else []) +
      (if result.output == "" && result.data == map[] then [NoOutputLine] else [])
    else
      match result.error
      case Some(e) => ["Script failed: " + e]
      case None => [UnknownErrorLine]
  }

  /** `out_script_result`; `order` is the iteration order of the data. */
  method OutScriptResult(result: ScriptResult) returns (lines: seq<string>, ghost order: seq<(string, string)>)
    ensures Lists(order, result.data)
    ensures lines == ScriptLines(result, order)
  {
    var entries := Enumerate(result.data);
    order := entries;
    if result.success {
      lines := [];
      if result.output != "" {
        lines := lines + ["Output: " + result.output];
      }
      if result.data != map[] {
        lines := lines + ["Data:"] + DataLines(entries);
      }
      if result.output == "" && result.data == map[] {
        lines := lines + [NoOutputLine];
      }
    } else if result.error.Some? {
      lines := ["Script failed: " + result.error.value];
    } else {
      lines := [UnknownErrorLine];
    }
  }

  /** A successful script reports "no output" exactly when it has neither
      output nor data. */
  lemma ScriptNoOutput(result: ScriptResult, es: seq<(string, string)>)
    requires result.success && Lists(es, result.data)
    ensures NoOutputLine in ScriptLines(result, es) <==> result.output == "" && result.data == map[]
  {
    var lines := ScriptLines(result, es);
    if !(result.output == "" && result.data == map[]) {
      var skip := if result.output != "" then 1 else 0;
      forall k | 0 <= k < |lines|
        ensures lines[k] != NoOutputLine
      {
        if result.output != "" && k == 0 {
          assert lines[k][0] == 'O';
        } else if k == skip && result.data != map[] {
          assert lines[k] == "Data:";
        } else {
          assert lines[k] == DataLine(es[k - skip - 1]);
          assert lines[k][0] == ' ';
        }
      }
    }
  }

  /** A successful script with data prints the "Data:" heading followed by
      one line per entry, after the output line if there is output. */
  lemma ScriptData(result: ScriptResult, es: seq<(string, string)>)
    requires result.success && result.data != map[] && Lists(es, result.data)
    ensures var lines := ScriptLines(result, es);
      var skip := if result.output == "" then 0 else 1;
      && |lines| == skip + 1 + |result.data|
      && (result.output != "" ==> lines[0] == "Output: " + result.output)
      && lines[skip] == "Data:"
      && lines[skip + 1..] == DataLines(es)
  {
    var skip := if result.output == "" then 0 else 1;
    var head: seq<string> := if result.output != "" then ["Output: " + result.output] else [];
    ScriptDataShape(result, es);
    var lines := head + ["Data:"] + DataLines(es);
    assert |es| == |result.data|;
    assert lines[skip + 1..] == DataLines(es);
  }

  /** The lines of a successful script with data, as one concatenation. */
  lemma ScriptDataShape(result: ScriptResult, es: seq<(string, string)>)
    requires result.success && result.data != map[]
    ensures ScriptLines(result, es) ==
      (if result.output != "" then ["Output: " + result.output] else []) + ["Data:"] + DataLines(es)
  {
  }

  /** A failed script prints one line: its error, or "unknown error" when it
      has none. */
  lemma ScriptFailure(result: ScriptResult, es: seq<(string, string)>)
    requires !result.success
    ensures |ScriptLines(result, es)| == 1
    ensures ScriptLines(result, es) == [UnknownErrorLine] <==> result.error.None?
  {
    if result.error.Some? {
      assert ("Script failed: " + result.error.value)[13] == ':' != UnknownErrorLine[13];
    }
  }
}
