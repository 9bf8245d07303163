/**
 * The reader of the nmap-service-probes text format
 * (src/core/probe/parser.rs): one forward pass over the lines that keeps an
 * optional probe under construction, collects the `Exclude` directives and
 * the finished probes in file order, and extracts the `q|…|` probe string,
 * the `m|…|flags` pattern and the `p/…/`, `v/…/`, …, `cpe:…` version fields
 * of match lines. Probe strings are stored raw; their escapes are decoded
 * only when a probe is sent (module ProbeMatcher).
 */
module ProbeParser {
  import opened Wrappers
  import opened Text

  /** One `match` or `softmatch` line. */
  datatype MatchEntry = MatchEntry(service: string, pattern: string, versionInfo: map<string, string>)

  /** One `Probe` section. The numeric options are `u32`, `u32` and `u8`. */
  datatype ProbeEntry = ProbeEntry(
    protocol: string,
    name: string,
    probeString: string,
    noPayload: bool,
    matches: seq<MatchEntry>,
    softMatches: seq<MatchEntry>,
    ports: seq<string>,
    sslPorts: seq<string>,
    totalWaitMs: Option<nat>,
    tcpWrappedMs: Option<nat>,
    rarity: Option<nat>,
    fallback: Option<string>)

  /** The parsed database. */
  datatype NmapProbes = NmapProbes(excludes: seq<string>, probes: seq<ProbeEntry>)

  // ---------------------------------------------------------------------
  // Delimited fields

  /** The text between the first and the last occurrence of `d` in `s`, or
      `None` when `d` occurs at most once. */
  function Between(s: string, d: char): (r: Option<string>)
    ensures r.Some? ==> |r.value| <= |s| - 2
  {
    match (Find(s, d), RFind(s, d))
    case (Some(start), Some(end)) =>
      if start != end then Some(s[start + 1..end]) else None
    case _ => None
  }

  /** The body of a `<lead><d>…<d>` field (`q|…|`, `m/…/flags`), which is
      everything between the first and the last `<d>`; a text of another
      shape, or one whose delimiter occurs only once, is returned whole. */
  function Unquote(s: string, lead: char): (r: string)
    ensures !(|s| > 2 && s[0] == lead) ==> r == s
    ensures |r| <= |s|
  {
    if |s| > 2 && s[0] == lead then Between(s, s[1]).UnwrapOr(s) else s
  }

  /** `parse_probe_string`. */
  function ParseProbeString(probePart: string): string {
    Unquote(probePart, 'q')
  }

  /** The one-letter version fields. */
  const FieldLetters: set<char> := {'p', 'v', 'i', 'h', 'o', 'd'}

  /** Every key a version field can have. */
  const VersionKeys: set<string> := {"p", "v", "i", "h", "o", "d", "cpe"}

  /** `parse_version_field`: `p/…/` and the other one-letter fields give the
      letter and the delimited text; `cpe:` gives `"cpe"` and everything
      after the four-character prefix, delimiters included. */
  function ParseVersionField(field: string): (r: Option<(string, string)>)
    ensures r.Some? ==> r.value.0 in VersionKeys
    ensures |field| < 3 ==> r.None?
    ensures r.Some? && r.value.0 != "cpe" ==> field[0] in FieldLetters && r.value.0 == [field[0]]
    ensures r.Some? && r.value.0 == "cpe" ==> StartsWith(field, "cpe:") && r.value.1 == field[4..]
  {
    if |field| < 3 then None
    else if field[0] !in FieldLetters && !StartsWith(field, "cpe:") then None
    else if StartsWith(field, "cpe:") then Some(("cpe", field[4..]))
    else
      match Between(field, field[1])
      case Some(value) => Some(([field[0]], value))
      case None => None
  }

  /** The version-info map of the fields after the pattern: each field that
      parses is inserted in turn, so a later field overwrites an earlier one
      with the same key. */
  function VersionInfo(fields: seq<string>): (m: map<string, string>)
    ensures m.Keys <= VersionKeys
  {
    if fields == [] then map[]
    else
      var m := VersionInfo(fields[..|fields| - 1]);
      match ParseVersionField(fields[|fields| - 1])
      case Some((key, value)) => m[key := value]
      case None => m
  }

  /** `parse_match_line` as a value. */
  function MatchLine(line: string): (r: Option<MatchEntry>)
    ensures r.None? <==> |SplitWhitespace(line)| < 3
    ensures r.Some? ==> r.value.versionInfo.Keys <= VersionKeys
  {
    var parts := SplitWhitespace(line);
    if |parts| < 3 then None
    else Some(MatchEntry(parts[1], Unquote(parts[2], 'm'), VersionInfo(parts[3..])))
  }

  /** `parse_match_line`: the version fields are inserted into the map one
      by one. */
  method ParseMatchLine(line: string) returns (r: Option<MatchEntry>)
    ensures r == MatchLine(line)
  {
    var parts := SplitWhitespace(line);
    if |parts| < 3 {
      return None;
    }
    var service := parts[1];
    var pattern := Unquote(parts[2], 'm');
    var fields := parts[3..];
    var info: map<string, string> := map[];
    var i := 0;
    while i < |fields|
      invariant 0 <= i <= |fields|
      invariant info == VersionInfo(fields[..i])
    {
      assert fields[..i + 1][..i] == fields[..i];
      var field := ParseVersionField(fields[i]);
      if field.Some? {
        info := info[field.value.0 := field.value.1];
      }
      i := i + 1;
    }
    assert fields[..i] == fields;
    r := Some(MatchEntry(service, pattern, info));
  }

  // ---------------------------------------------------------------------
  // The line loop

  /** The state of the loop: the output so far and the open probe. */
  datatype Parser = Parser(excludes: seq<string>, probes: seq<ProbeEntry>, current: Option<ProbeEntry>)

  /** The tokens after the directive, joined by single spaces. */
  function Rest(parts: seq<string>): string
    requires |parts| > 0
  {
    Join(parts[1..], " ")
  }

  /** The probe a `Probe <protocol> <name> <probe string…>` line opens. */
  function NewProbe(parts: seq<string>): ProbeEntry
    requires |parts| >= 4
  {
    ProbeEntry(parts[1], parts[2], ParseProbeString(Join(parts[3..], " ")), "no-payload" in parts,
               [], [], [], [], None, None, None, None)
  }

  /** The open probe as a directive other than `Exclude` and `Probe`
      leaves it. */
  function Refine(p: ProbeEntry, line: string, parts: seq<string>): ProbeEntry
    requires |parts| > 0
  {
    var keyword := parts[0];
    if keyword == "match" then
      match MatchLine(line)
      case Some(m) => p.(matches := p.matches + [m])
      case None => p
    else if keyword == "softmatch" then
      match MatchLine(line)
      case Some(m) => p.(softMatches := p.softMatches + [m])
      case None => p
    else if |parts| <= 1 then p
    else if keyword == "ports" then p.(ports := p.ports + [Rest(parts)])
    else if keyword == "sslports" then p.(sslPorts := p.sslPorts + [Rest(parts)])
    else if keyword == "totalwaitms" then
      (if ParseUnsigned(parts[1], U32Max).Some? then p.(totalWaitMs := ParseUnsigned(parts[1], U32Max)) else p)
    else if keyword == "tcpwrappedms" then
      (if ParseUnsigned(parts[1], U32Max).Some? then p.(tcpWrappedMs := ParseUnsigned(parts[1], U32Max)) else p)
    else if keyword == "rarity" then
      (if ParseUnsigned(parts[1], U8Max).Some? then p.(rarity := ParseUnsigned(parts[1], U8Max)) else p)
    else if keyword == "fallback" then p.(fallback := Some(Rest(parts)))
    else p
  }

  /** The probes of the state with the open one, if any, appended. */
  function Flushed(st: Parser): seq<ProbeEntry> {
    st.probes + (if st.current.Some? then [st.current.value] else [])
  }

  /** One iteration of the loop, for one line of the file: blank lines and
      comments are skipped, any other line is dispatched on its first token. */
  function Step(st: Parser, rawLine: string): Parser {
    var line := Trim(rawLine);
    if line == "" || line[0] == '#' then st
    else Dispatch(st, line, SplitWhitespace(line))
  }

  /** The `match parts[0]` of the loop. */
  function Dispatch(st: Parser, line: string, parts: seq<string>): Parser {
    if parts == [] then st
    else if parts[0] == "Exclude" then
      (if |parts| > 1 then st.(excludes := st.excludes + [Rest(parts)]) else st)
    else if parts[0] == "Probe" then
      Parser(st.excludes, Flushed(st), if |parts| >= 4 then Some(NewProbe(parts)) else None)
    else
      match st.current
      case None => st
      case Some(p) => st.(current := Some(Refine(p, line, parts)))
  }

  /** The state after the given lines. */
  function Run(lines: seq<string>): Parser {
    if lines == [] then Parser([], [], None)
    else Step(Run(lines[..|lines| - 1]), lines[|lines| - 1])
  }

  lemma RunSnoc(lines: seq<string>, i: nat)
    requires i < |lines|
    ensures Run(lines[..i + 1]) == Step(Run(lines[..i]), lines[i])
  {
    assert lines[..i + 1][..i] == lines[..i];
  }

  /** The database the whole file gives: the last open probe is appended at
      the end of input. */
  function ParseProbeFile(lines: seq<string>): NmapProbes {
    var st := Run(lines);
    NmapProbes(st.excludes, Flushed(st))
  }

  /** The line loop of `parse_nmap_probes_json`, over the lines of the file. */
  method ParseNmapProbes(lines: seq<string>) returns (db: NmapProbes)
    ensures db == ParseProbeFile(lines)
  {
    var excludes: seq<string> := [];
    var probes: seq<ProbeEntry> := [];
    var current: Option<ProbeEntry> := None;
    var i := 0;
    while i < |lines|
      invariant 0 <= i <= |lines|
      invariant Parser(excludes, probes, current) == Run(lines[..i])
    {
      RunSnoc(lines, i);
      excludes, probes, current := Feed(excludes, probes, current, lines[i]);
      i := i + 1;
    }
    assert lines[..i] == lines;
    if current.Some? {
      probes := probes + [current.value];
    }
    db := NmapProbes(excludes, probes);
  }

  /** One pass of the loop: trim the line, skip blanks and comments, dispatch the rest. */
  method Feed(excludes: seq<string>, probes: seq<ProbeEntry>, current: Option<ProbeEntry>,
              rawLine: string)
    returns (excludes': seq<string>, probes': seq<ProbeEntry>, current': Option<ProbeEntry>)
    ensures Parser(excludes', probes', current') == Step(Parser(excludes, probes, current), rawLine)
  {
    excludes', probes', current' := excludes, probes, current;
    var line := Trim(rawLine);
    if line == "" || line[0] == '#' {
      return;
    }
    var parts := SplitWhitespace(line);
    if parts == [] {
      return;
    }
    excludes', probes', current' := Apply(excludes, probes, current, line, parts);
  }

  /** The `match parts[0]` of the loop, on the three variables it updates. */
  method Apply(excludes: seq<string>, probes: seq<ProbeEntry>, current: Option<ProbeEntry>,
               line: string, parts: seq<string>)
    returns (excludes': seq<string>, probes': seq<ProbeEntry>, current': Option<ProbeEntry>)
    requires parts != []
    ensures Parser(excludes', probes', current') == Dispatch(Parser(excludes, probes, current), line, parts)
  {
    excludes', probes', current' := excludes, probes, current;
    if parts[0] == "Exclude" {
      if |parts| > 1 {
        excludes' := excludes' + [Join(parts[1..], " ")];
      }
    } else if parts[0] == "Probe" {
      if current'.Some? {
        probes' := probes' + [current'.value];
        current' := None;
      }
      if |parts| >= 4 {
        current' := Some(NewProbe(parts));
      }
    } else if current'.Some? {
      var p := UpdateProbe(current'.value, line, parts);
      current' := Some(p);
    }
  }

  /** The arms of the loop's `match` that change the open probe. */
  method UpdateProbe(probe: ProbeEntry, line: string, parts: seq<string>) returns (p: ProbeEntry)
    requires |parts| > 0
    ensures p == Refine(probe, line, parts)
  {
    p := probe;
    if parts[0] == "match" {
      var m := ParseMatchLine(line);
      if m.Some? {
        p := p.(matches := p.matches + [m.value]);
      }
    } else if parts[0] == "softmatch" {
      var m := ParseMatchLine(line);
      if m.Some? {
        p := p.(softMatches := p.softMatches + [m.value]);
      }
    } else if parts[0] == "ports" {
      if |parts| > 1 {
        p := p.(ports := p.ports + [Join(parts[1..], " ")]);
      }
    } else if parts[0] == "sslports" {
      if |parts| > 1 {
        p := p.(sslPorts := p.sslPorts + [Join(parts[1..], " ")]);
      }
    } else if parts[0] == "totalwaitms" {
      if |parts| > 1 {
        var ms := ParseUnsigned(parts[1], U32Max);
        if ms.Some? {
          p := p.(totalWaitMs := ms);
        }
      }
    } else if parts[0] == "tcpwrappedms" {
      if |parts| > 1 {
        var ms := ParseUnsigned(parts[1], U32Max);
        if ms.Some? {
          p := p.(tcpWrappedMs := ms);
        }
      }
    } else if parts[0] == "rarity" {
      if |parts| > 1 {
        var r := ParseUnsigned(parts[1], U8Max);
        if r.Some? {
          p := p.(rarity := r);
        }
      }
    } else if parts[0] == "fallback" {
      if |parts| > 1 {
        p := p.(fallback := Some(Join(parts[1..], " ")));
      }
    }
  }

  // ---------------------------------------------------------------------
  // Lemmas: delimited fields

  /** The body runs from the first to the last delimiter, so it may itself
      contain the delimiter; what follows the last one is dropped. */
  lemma BetweenDelimited(lead: char, d: char, body: string, tail: string)
    requires d != lead && d !in tail
    ensures Between([lead, d] + body + [d] + tail, d) == Some(body)
  {
    var s := [lead, d] + body + [d] + tail;
    var e := 2 + |body|;
    assert s[1] == d && s[e] == d;
    assert s[e + 1..] == tail;
    assert s[2..e] == body;
    assert Find(s, d) == Some(1);
    assert RFind(s, d) == Some(e);
  }

  /** With a single delimiter there is no body. */
  lemma BetweenUnclosed(lead: char, d: char, rest: string)
    requires d != lead && d !in rest
    ensures Between([lead, d] + rest, d) == None
  {
    var s := [lead, d] + rest;
    assert s[1] == d;
    assert s[2..] == rest;
    assert Find(s, d) == Some(1);
    assert RFind(s, d) == Some(1);
  }

  /** `q|GET / HTTP/1.0\r\n\r\n|` gives the text between the bars, raw. */
  lemma UnquoteDelimited(lead: char, d: char, body: string, tail: string)
    requires d != lead && d !in tail
    ensures Unquote([lead, d] + body + [d] + tail, lead) == body
  {
    BetweenDelimited(lead, d, body, tail);
  }

  /** A field with no closing delimiter is kept whole. */
  lemma UnquoteUnclosed(lead: char, d: char, rest: string)
    requires d != lead && d !in rest
    ensures Unquote([lead, d] + rest, lead) == [lead, d] + rest
  {
    if |rest| > 0 {
      BetweenUnclosed(lead, d, rest);
    }
  }

  /** The search for the delimiter starts at the leading letter itself: with
      `q` as its own delimiter, `qqabcq` gives `qabc`. */
  lemma UnquoteLeadAsDelimiter()
    ensures Unquote("qqabcq", 'q') == "qabc"
  {
    var s := "qqabcq";
    assert Find(s, 'q') == Some(0);
    assert s[1..5] == "qabc";
  }

  /** With the leading letter as its own delimiter, the search finds the
      letter itself at index 0: the body keeps one copy of the letter. */
  lemma UnquoteLeadDelimited(lead: char, body: string, tail: string)
    requires lead !in tail
    ensures Unquote([lead, lead] + body + [lead] + tail, lead) == [lead] + body
  {
    var s := [lead, lead] + body + [lead] + tail;
    var e := 2 + |body|;
    assert s[e] == lead && s[e + 1..] == tail;
    assert Find(s, lead) == Some(0);
    assert RFind(s, lead) == Some(e);
    assert s[1..e] == [lead] + body;
  }

  /** With the leading letter as its own delimiter and no later copy of it,
      the first and the last occurrence are indices 0 and 1: the body is empty. */
  lemma UnquoteLeadUnclosed(lead: char, rest: string)
    requires |rest| > 0 && lead !in rest
    ensures Unquote([lead, lead] + rest, lead) == ""
  {
    var s := [lead, lead] + rest;
    assert s[2..] == rest;
    assert Find(s, lead) == Some(0);
    assert s[1] == lead && s[1..][0] == lead;
    assert forall j :: 2 <= j < |s| ==> s[j] == rest[j - 2];
    assert RFind(s, lead) == Some(1);
  }

  /** `p/…/` and the other one-letter fields. */
  lemma VersionFieldDelimited(t: char, d: char, body: string, tail: string)
    requires t in FieldLetters && d != t && d !in tail
    ensures ParseVersionField([t, d] + body + [d] + tail) == Some(([t], body))
  {
    BetweenDelimited(t, d, body, tail);
  }

  /** A one-letter field whose delimiter does not occur again is dropped. */
  lemma VersionFieldUnclosed(t: char, d: char, rest: string)
    requires t in FieldLetters && d != t && d !in rest
    ensures ParseVersionField([t, d] + rest) == None
  {
    if |rest| > 0 {
      BetweenUnclosed(t, d, rest);
    }
  }

  /** `cpe:` keeps everything after the prefix, delimiters included. */
  lemma VersionFieldCpe(rest: string)
    ensures ParseVersionField("cpe:" + rest) == Some(("cpe", rest))
  {
    assert ("cpe:" + rest)[..4] == "cpe:";
    assert ("cpe:" + rest)[4..] == rest;
  }

  /** A key is in the version-info map exactly when some field has it, and
      then the value is that of the last such field. */
  lemma {:induction false} VersionInfoLastWins(fields: seq<string>, key: string)
    ensures key in VersionInfo(fields) <==>
            exists j :: 0 <= j < |fields| && ParseVersionField(fields[j]).Some? && ParseVersionField(fields[j]).value.0 == key
    ensures forall j :: 0 <= j < |fields| && ParseVersionField(fields[j]).Some? && ParseVersionField(fields[j]).value.0 == key &&
                   (forall j' :: j < j' < |fields| && ParseVersionField(fields[j']).Some? ==> ParseVersionField(fields[j']).value.0 != key)
                   ==> key in VersionInfo(fields) && VersionInfo(fields)[key] == ParseVersionField(fields[j]).value.1
    decreases |fields|
  {
    if fields != [] {
      var n := |fields| - 1;
      var init := fields[..n];
      VersionInfoLastWins(init, key);
      forall j | 0 <= j < n ensures init[j] == fields[j] { }
      var before := VersionInfo(init);
      var last := ParseVersionField(fields[n]);
      if last.Some? && last.value.0 == key {
        assert VersionInfo(fields) == before[key := last.value.1];
        forall j | 0 <= j < |fields| && ParseVersionField(fields[j]).Some? && ParseVersionField(fields[j]).value.0 == key &&
                   (forall j' :: j < j' < |fields| && ParseVersionField(fields[j']).Some? ==> ParseVersionField(fields[j']).value.0 != key)
          ensures j == n
        {
          assert !(j < n);
        }
      } else {
        assert VersionInfo(fields) == if last.Some? then before[last.value.0 := last.value.1] else before;
        assert key in VersionInfo(fields) <==> key in before;
        assert key in before ==> VersionInfo(fields)[key] == before[key];
        forall j | 0 <= j < |fields| && ParseVersionField(fields[j]).Some? && ParseVersionField(fields[j]).value.0 == key
          ensures j < n
        {
        }
      }
    }
  }

  // ---------------------------------------------------------------------
  // Lemmas: the line loop

  /** Blank lines and comments leave the state as it is. */
  lemma {:induction false} RunSkipsBlank(lines: seq<string>, more: seq<string>)
    requires forall k :: 0 <= k < |more| ==> Trim(more[k]) == "" || Trim(more[k])[0] == '#'
    ensures Run(lines + more) == Run(lines)
    decreases |more|
  {
    if more == [] {
      assert lines + more == lines;
    } else {
      var init := more[..|more| - 1];
      assert (lines + more)[..|lines + more| - 1] == lines + init;
      RunSkipsBlank(lines, init);
    }
  }

  /** An `Exclude` line with arguments appends them, joined by single
      spaces, whether or not a probe is open; nothing else changes. */
  lemma StepExclude(st: Parser, rawLine: string)
    requires var parts := SplitWhitespace(Trim(rawLine)); |parts| > 1 && parts[0] == "Exclude"
    ensures Step(st, rawLine) == st.(excludes := st.excludes + [Join(SplitWhitespace(Trim(rawLine))[1..], " ")])
  {
    StepDispatches(st, rawLine);
  }

  /** A `Probe` line always moves the open probe to the output first; with
      fewer than four tokens no probe is open afterwards. */
  lemma StepProbe(st: Parser, rawLine: string)
    requires var parts := SplitWhitespace(Trim(rawLine)); |parts| > 0 && parts[0] == "Probe"
    ensures Step(st, rawLine).probes == Flushed(st)
    ensures Step(st, rawLine).excludes == st.excludes
    ensures Step(st, rawLine).current.Some? <==> |SplitWhitespace(Trim(rawLine))| >= 4
  {
    var parts := SplitWhitespace(Trim(rawLine));
    assert parts[0] != "Exclude";
    StepDispatches(st, rawLine);
    assert Step(st, rawLine) == Parser(st.excludes, Flushed(st), if |parts| >= 4 then Some(NewProbe(parts)) else None);
  }

  /** A line whose first token does not start with `#` is not skipped. */
  lemma StepDispatches(st: Parser, rawLine: string)
    requires var parts := SplitWhitespace(Trim(rawLine)); parts != [] && parts[0] != [] && parts[0][0] != '#'
    ensures Step(st, rawLine) == Dispatch(st, Trim(rawLine), SplitWhitespace(Trim(rawLine)))
  {
    var line := Trim(rawLine);
    assert line != "";
    SplitWhitespaceFirst(line);
  }

  /** A line is a directive for the open probe: it is not skipped and its
      first token is neither `Exclude` nor `Probe`. */
  predicate ProbeDirective(rawLine: string) {
    var line := Trim(rawLine);
    !(line == "" || line[0] == '#') &&
    var parts := SplitWhitespace(line);
    parts != [] && parts[0] != "Exclude" && parts[0] != "Probe"
  }

  /** While no probe is open, `match`, `ports` and the other directives of a
      probe are discarded, until the next `Probe` line. */
  lemma {:induction false} RunDiscardsWithoutProbe(lines: seq<string>, more: seq<string>)
    requires Run(lines).current.None?
    requires forall k :: 0 <= k < |more| ==> ProbeDirective(more[k])
    ensures Run(lines + more) == Run(lines)
    decreases |more|
  {
    if more == [] {
      assert lines + more == lines;
    } else {
      var init := more[..|more| - 1];
      assert (lines + more)[..|lines + more| - 1] == lines + init;
      RunDiscardsWithoutProbe(lines, init);
    }
  }

  /** What a `Probe` line fixes about the probe it opens. */
  function Header(p: ProbeEntry): (string, string, string, bool) {
    (p.protocol, p.name, p.probeString, p.noPayload)
  }

  function Headers(ps: seq<ProbeEntry>): (r: seq<(string, string, string, bool)>)
    ensures |r| == |ps|
  {
    if ps == [] then [] else Headers(ps[..|ps| - 1]) + [Header(ps[|ps| - 1])]
  }

  /** The header of the probe a line opens, if it is a `Probe` line with at
      least four tokens. */
  function ProbeLine(rawLine: string): Option<(string, string, string, bool)> {
    var line := Trim(rawLine);
    if line == "" || line[0] == '#' then None
    else
      var parts := SplitWhitespace(line);
      if |parts| >= 4 && parts[0] == "Probe" then Some(Header(NewProbe(parts))) else None
  }

  /** The headers of the `Probe` lines with at least four tokens, in file order. */
  function ProbeLines(lines: seq<string>): seq<(string, string, string, bool)> {
    if lines == [] then []
    else
      ProbeLines(lines[..|lines| - 1]) +
      match ProbeLine(lines[|lines| - 1]) case Some(h) => [h] case None => []
  }

  lemma RefineKeepsHeader(p: ProbeEntry, line: string, parts: seq<string>)
    requires |parts| > 0
    ensures Header(Refine(p, line, parts)) == Header(p)
  {
  }

  lemma HeadersSnoc(ps: seq<ProbeEntry>, p: ProbeEntry)
    ensures Headers(ps + [p]) == Headers(ps) + [Header(p)]
  {
    assert (ps + [p])[..|ps|] == ps;
  }

  lemma StepHeaders(st: Parser, rawLine: string)
    ensures Headers(Flushed(Step(st, rawLine))) ==
            Headers(Flushed(st)) + match ProbeLine(rawLine) case Some(h) => [h] case None => []
  {
    var line := Trim(rawLine);
    if line == "" || line[0] == '#' {
      assert Step(st, rawLine) == st && ProbeLine(rawLine).None?;
    } else {
      var parts := SplitWhitespace(line);
      assert Step(st, rawLine) == Dispatch(st, line, parts);
      if parts != [] && parts[0] == "Probe" {
        ProbeHeaders(st, line, parts);
        if |parts| >= 4 {
          assert ProbeLine(rawLine) == Some(Header(NewProbe(parts)));
        } else {
          assert ProbeLine(rawLine).None?;
        }
      } else {
        assert ProbeLine(rawLine).None?;
        OtherHeaders(st, line, parts);
      }
    }
  }

  /** A `Probe` line closes the open probe and opens a new one when it has
      at least four tokens. */
  lemma ProbeHeaders(st: Parser, line: string, parts: seq<string>)
    requires parts != [] && parts[0] == "Probe"
    ensures Headers(Flushed(Dispatch(st, line, parts))) ==
            Headers(Flushed(st)) + if |parts| >= 4 then [Header(NewProbe(parts))] else []
  {
    var next := Parser(st.excludes, Flushed(st), if |parts| >= 4 then Some(NewProbe(parts)) else None);
    assert Dispatch(st, line, parts) == next;
    if |parts| >= 4 {
      HeadersSnoc(Flushed(st), NewProbe(parts));
    } else {
      assert Flushed(next) == Flushed(st);
    }
  }

  /** Any other line leaves the headers as they were. */
  lemma OtherHeaders(st: Parser, line: string, parts: seq<string>)
    requires !(parts != [] && parts[0] == "Probe")
    ensures Headers(Flushed(Dispatch(st, line, parts))) == Headers(Flushed(st))
  {
    if parts != [] && parts[0] != "Exclude" && st.current.Some? {
      var p := st.current.value;
      assert Dispatch(st, line, parts) == st.(current := Some(Refine(p, line, parts)));
      RefineKeepsHeader(p, line, parts);
      HeadersSnoc(st.probes, p);
      HeadersSnoc(st.probes, Refine(p, line, parts));
    }
  }

  lemma {:induction false} RunHeaders(lines: seq<string>)
    ensures Headers(Flushed(Run(lines))) == ProbeLines(lines)
    decreases |lines|
  {
    if lines != [] {
      RunHeaders(lines[..|lines| - 1]);
      StepHeaders(Run(lines[..|lines| - 1]), lines[|lines| - 1]);
    }
  }

  /** The probes come out in file order, one for each `Probe` line with at
      least four tokens, each with the protocol, name, raw probe string and
      `no-payload` flag of its line. */
  lemma ProbesInFileOrder(lines: seq<string>)
    ensures Headers(ParseProbeFile(lines).probes) == ProbeLines(lines)
    ensures |ParseProbeFile(lines).probes| == |ProbeLines(lines)|
  {
    RunHeaders(lines);
  }

  /** The argument text of an `Exclude` line with arguments. */
  function ExcludeLine(rawLine: string): Option<string> {
    var line := Trim(rawLine);
    if line == "" || line[0] == '#' then None
    else
      var parts := SplitWhitespace(line);
      if |parts| > 1 && parts[0] == "Exclude" then Some(Rest(parts)) else None
  }

  function ExcludeLines(lines: seq<string>): seq<string> {
    if lines == [] then []
    else
      ExcludeLines(lines[..|lines| - 1]) +
      match ExcludeLine(lines[|lines| - 1]) case Some(e) => [e] case None => []
  }

  /** The excludes are the arguments of the `Exclude` lines, in file order,
      wherever they stand relative to the probes. */
  lemma {:induction false} ExcludesInFileOrder(lines: seq<string>)
    ensures ParseProbeFile(lines).excludes == ExcludeLines(lines)
    decreases |lines|
  {
    if lines != [] {
      var init := lines[..|lines| - 1];
      ExcludesInFileOrder(init);
      StepExcludes(Run(init), lines[|lines| - 1]);
    }
  }

  lemma StepExcludes(st: Parser, rawLine: string)
    ensures Step(st, rawLine).excludes ==
            st.excludes + match ExcludeLine(rawLine) case Some(e) => [e] case None => []
  {
    var line := Trim(rawLine);
    if line == "" || line[0] == '#' {
      assert Step(st, rawLine) == st;
      assert ExcludeLine(rawLine).None?;
    } else {
      var parts := SplitWhitespace(line);
      assert Step(st, rawLine) == Dispatch(st, line, parts);
      DispatchExcludes(st, line, parts);
      if |parts| > 1 && parts[0] == "Exclude" {
        assert ExcludeLine(rawLine) == Some(Rest(parts));
      } else {
        assert ExcludeLine(rawLine).None?;
      }
    }
  }

  /** Only an `Exclude` line with an argument extends the excludes. */
  lemma DispatchExcludes(st: Parser, line: string, parts: seq<string>)
    ensures Dispatch(st, line, parts).excludes ==
            st.excludes + if |parts| > 1 && parts[0] == "Exclude" then [Rest(parts)] else []
  {
    if parts != [] && parts[0] != "Exclude" && parts[0] != "Probe" {
      match st.current
      case None =>
      case Some(p) =>
        assert Dispatch(st, line, parts) == st.(current := Some(Refine(p, line, parts)));
    }
  }

  /** The `no-payload` flag is set exactly when one of the tokens of the
      `Probe` line is `no-payload`. */
  lemma NoPayloadIff(parts: seq<string>)
    requires |parts| >= 4
    ensures NewProbe(parts).noPayload <==> exists k :: 0 <= k < |parts| && parts[k] == "no-payload"
  {
  }

  // ---------------------------------------------------------------------
  // What one line does to the open probe

  /** A `match` line with at least three tokens names the service by its
      second token and the pattern by the text between the delimiters of its
      third; the third token is kept whole when it has no closing delimiter. */
  lemma MatchLineFields(line: string, d: char, body: string, flags: string)
    requires |SplitWhitespace(line)| >= 3 && d != 'm'
    ensures var parts, e := SplitWhitespace(line), MatchLine(line).value;
      && e.service == parts[1]
      && e.versionInfo == VersionInfo(parts[3..])
      && (parts[2] == ['m', d] + body + [d] + flags && d !in flags ==> e.pattern == body)
      && (parts[2] == ['m', d] + body && d !in body ==> e.pattern == parts[2])
  {
    var parts := SplitWhitespace(line);
    assert MatchLine(line) == Some(MatchEntry(parts[1], Unquote(parts[2], 'm'), VersionInfo(parts[3..])));
    if parts[2] == ['m', d] + body + [d] + flags && d !in flags {
      UnquoteDelimited('m', d, body, flags);
    }
    if parts[2] == ['m', d] + body && d !in body {
      UnquoteUnclosed('m', d, body);
    }
  }

  /** Each directive changes only its own field of the open probe: `match`
      and `softmatch` append the parsed entry when the line parses, `ports`
      and `sslports` append their argument, and a numeric option takes the
      new value only when it parses, so the last valid one wins. */
  lemma RefineFields(p: ProbeEntry, line: string, parts: seq<string>)
    requires |parts| > 0
    ensures var q, k, arg := Refine(p, line, parts), parts[0], |parts| > 1;
      && q.matches == p.matches + (if k == "match" && MatchLine(line).Some? then [MatchLine(line).value] else [])
      && q.softMatches == p.softMatches + (if k == "softmatch" && MatchLine(line).Some? then [MatchLine(line).value] else [])
      && q.ports == p.ports + (if k == "ports" && arg then [Rest(parts)] else [])
      && q.sslPorts == p.sslPorts + (if k == "sslports" && arg then [Rest(parts)] else [])
      && q.totalWaitMs == (if k == "totalwaitms" && arg && ParseUnsigned(parts[1], U32Max).Some?
                           then ParseUnsigned(parts[1], U32Max) else p.totalWaitMs)
      && q.tcpWrappedMs == (if k == "tcpwrappedms" && arg && ParseUnsigned(parts[1], U32Max).Some?
                            then ParseUnsigned(parts[1], U32Max) else p.tcpWrappedMs)
      && q.rarity == (if k == "rarity" && arg && ParseUnsigned(parts[1], U8Max).Some?
                      then ParseUnsigned(parts[1], U8Max) else p.rarity)
      && q.fallback == (if k == "fallback" && arg then Some(Rest(parts)) else p.fallback)
      && (q.totalWaitMs.Some? ==> q.totalWaitMs.value <= U32Max || q.totalWaitMs == p.totalWaitMs)
      && (q.rarity.Some? ==> q.rarity.value <= U8Max || q.rarity == p.rarity)
  {
  }
}
