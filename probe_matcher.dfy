/**
 * Service detection (src/core/probe/operator.rs): the escape decoder of
 * probe strings, the `$N` substitution of version templates, matching a
 * response against one match line, the first-match-wins order of hard and
 * soft matches, the choice of probes for a port, and the `Prober` object
 * that holds the loaded database and the timeout.
 *
 * The regular-expression engine is a parameter (`RegexEngine`), and every
 * network exchange is an input: the reply a probe got, or that a send
 * timed out.
 */
module ProbeMatcher {
  import opened Wrappers
  import opened Text
  import opened Net
  import opened ProbeParser
  import PortSpec

  // ---------------------------------------------------------------------
  // Escape decoding

  /** The byte of the two-character escapes `\n \r \t \0 \\`. */
  function SimpleEscape(c: char): Option<byte> {
    if c == 'n' then Some(0x0A)
    else if c == 'r' then Some(0x0D)
    else if c == 't' then Some(0x09)
    else if c == '0' then Some(0x00)
    else if c == '\\' then Some(0x5C)
    else None
  }

  /** The bytes a probe string stands for. `\x` takes the next two
      characters, `'0'` for each that is missing, and gives their byte when
      they are a base-16 `u8` and nothing otherwise; any other backslash is
      the byte 0x5C and the character after it is read normally. */
  function Decode(s: string): (r: seq<byte>)
    ensures |r| <= |s|
    decreases |s|
  {
    if |s| == 0 then []
    else if s[0] != '\\' || |s| == 1 then [CharByte(s[0])] + Decode(s[1..])
    else if SimpleEscape(s[1]).Some? then [SimpleEscape(s[1]).value] + Decode(s[2..])
    else if s[1] == 'x' then
      var hi := if |s| > 2 then s[2] else '0';
      var lo := if |s| > 3 then s[3] else '0';
      var rest := if |s| > 4 then s[4..] else [];
      (match ParseHexPair(hi, lo) case Some(b) => [b as byte] case None => []) + Decode(rest)
    else [CharByte(s[0])] + Decode(s[1..])
  }

  /** `decode_probe_string`: a loop over the characters that pushes bytes. */
  method DecodeProbeString(s: string) returns (out: seq<byte>)
    ensures out == Decode(s)
  {
    out := [];
    var i := 0;
    while i < |s|
      invariant 0 <= i <= |s|
      invariant out + Decode(s[i..]) == Decode(s)
      decreases |s| - i
    {
      var bytes, next := DecodeEscape(s, i);
      out, i := out + bytes, next;
    }
  }

  /** One iteration of the loop of `decode_probe_string`: the character at
      `i`, or the escape it starts, and the index after it. */
  method DecodeEscape(s: string, i: nat) returns (bytes: seq<byte>, next: nat)
    requires i < |s|
    ensures i < next <= |s|
    ensures Decode(s[i..]) == bytes + Decode(s[next..])
  {
    DecodeAt(s, i);
    var ch := s[i];
    next := i + 1;
    bytes := [CharByte(ch)];
    if ch == '\\' && next < |s| {
      var escape := SimpleEscape(s[next]);
      if escape.Some? {
        bytes, next := [escape.value], next + 1;
      } else if s[next] == 'x' {
        next := next + 1;
        var hex1 := '0';
        if next < |s| {
          hex1, next := s[next], next + 1;
        }
        var hex2 := '0';
        if next < |s| {
          hex2, next := s[next], next + 1;
        }
        assert hex1 == (if i + 2 < |s| then s[i + 2] else '0');
        assert hex2 == (if i + 3 < |s| then s[i + 3] else '0');
        assert next == if i + 4 <= |s| then i + 4 else |s|;
        var b := ParseHexPair(hex1, hex2);
        bytes := if b.Some? then [b.value as byte] else [];
      }
    }
  }

  /** `Decode` of the suffix from `at`, unfolded once in terms of `s`. */
  lemma DecodeAt(s: string, at: nat)
    requires at < |s|
    ensures Decode(s[at..]) ==
      if s[at] != '\\' || at + 1 == |s| then [CharByte(s[at])] + Decode(s[at + 1..])
      else if SimpleEscape(s[at + 1]).Some? then [SimpleEscape(s[at + 1]).value] + Decode(s[at + 2..])
      else if s[at + 1] == 'x' then
        (match ParseHexPair(if at + 2 < |s| then s[at + 2] else '0', if at + 3 < |s| then s[at + 3] else '0')
         case Some(b) => [b as byte] case None => []) + Decode(s[if at + 4 <= |s| then at + 4 else |s|..])
      else [CharByte(s[at])] + Decode(s[at + 1..])
  {
    var t := s[at..];
    assert t[1..] == s[at + 1..];
    if |t| > 2 { assert t[2..] == s[at + 2..]; }
    if |t| > 4 { assert t[4..] == s[at + 4..]; }
    if |t| <= 4 { assert s[|s|..] == []; }
  }

  // ---------------------------------------------------------------------
  // Version templates

  /** The template after substituting the groups 1 .. n-1 in ascending
      order, each present group `i` replacing every `$i`. */
  function SubstituteUpTo(value: string, groups: seq<Option<string>>, n: nat): string
    requires n <= |groups|
    decreases n
  {
    if n <= 1 then value
    else
      var r := SubstituteUpTo(value, groups, n - 1);
      if groups[n - 1].Some? then ReplaceAll(r, "$" + NatToString(n - 1), groups[n - 1].value) else r
  }

  /** `process_version_field`. */
  function Substitute(value: string, groups: seq<Option<string>>): string {
    SubstituteUpTo(value, groups, |groups|)
  }

  /** `process_version_field`: `result` is reassigned once per group. */
  method ProcessVersionField(value: string, groups: seq<Option<string>>) returns (result: string)
    ensures result == Substitute(value, groups)
  {
    result := value;
    var i := 1;
    while i < |groups|
      invariant 1 <= i
      invariant i <= |groups| || |groups| == 0
      invariant result == SubstituteUpTo(value, groups, if |groups| == 0 then 0 else i)
    {
      if groups[i].Some? {
        result := ReplaceAll(result, "$" + NatToString(i), groups[i].value);
      }
      i := i + 1;
    }
  }

  // ---------------------------------------------------------------------
  // Properties of the decoder

  /** A text without backslashes decodes character for character, and it
      does so in front of anything. */
  lemma {:induction false} DecodePlainPrefix(a: string, b: string)
    requires '\\' !in a
    ensures Decode(a + b) == Bytes(a) + Decode(b)
    decreases |a|
  {
    if a != [] {
      var s := a + b;
      assert s[1..] == a[1..] + b;
      DecodePlainPrefix(a[1..], b);
      assert Bytes(a) == [CharByte(a[0])] + Bytes(a[1..]);
    } else {
      assert a + b == b;
    }
  }

  /** Without backslashes, one byte per character. */
  lemma DecodePlain(s: string)
    requires '\\' !in s
    ensures Decode(s) == Bytes(s)
  {
    DecodePlainPrefix(s, []);
    assert s + [] == s;
  }

  /** `\n \r \t \0 \\` are one byte each and take two characters. */
  lemma DecodeSimpleEscape(c: char, rest: string)
    ensures c == 'n' ==> Decode(['\\', c] + rest) == [0x0A] + Decode(rest)
    ensures c == 'r' ==> Decode(['\\', c] + rest) == [0x0D] + Decode(rest)
    ensures c == 't' ==> Decode(['\\', c] + rest) == [0x09] + Decode(rest)
    ensures c == '0' ==> Decode(['\\', c] + rest) == [0x00] + Decode(rest)
    ensures c == '\\' ==> Decode(['\\', c] + rest) == [0x5C] + Decode(rest)
  {
    assert (['\\', c] + rest)[2..] == rest;
  }

  /** `\xHH` with two hexadecimal digits is the byte `0xHH`. */
  lemma DecodeHex(hi: char, lo: char, rest: string)
    requires IsHexDigit(hi) && IsHexDigit(lo)
    ensures Decode(['\\', 'x', hi, lo] + rest) == [16 * HexValue(hi) + HexValue(lo)] + Decode(rest)
  {
    var s := ['\\', 'x', hi, lo] + rest;
    assert |s| > 4 ==> s[4..] == rest;
    assert |s| == 4 ==> rest == [];
  }

  /** `\x` followed by two characters that are not a hexadecimal byte
      consumes them and emits nothing. */
  lemma DecodeHexInvalid(hi: char, lo: char, rest: string)
    requires ParseHexPair(hi, lo).None?
    ensures Decode(['\\', 'x', hi, lo] + rest) == Decode(rest)
  {
    var s := ['\\', 'x', hi, lo] + rest;
    assert |s| > 4 ==> s[4..] == rest;
    assert |s| == 4 ==> rest == [];
  }

  /** A truncated `\x` reads `'0'` for each missing character. */
  lemma DecodeHexTruncated()
    ensures Decode("\\x41") == [0x41]
    ensures Decode("\\x4") == [0x40]
    ensures Decode("\\x") == [0x00]
    ensures Decode("\\xZZ") == []
  {
    assert ParseHexPair('4', '1') == Some(0x41);
    assert ParseHexPair('4', '0') == Some(0x40);
    assert ParseHexPair('0', '0') == Some(0x00);
    assert "\\x41"[4..] == [];
  }

  /** An unknown escape emits the backslash and leaves the next character
      to be read normally; so does a backslash at the end. */
  lemma DecodeUnknownEscape(c: char, rest: string)
    requires SimpleEscape(c).None? && c != 'x'
    ensures Decode(['\\', c] + rest) == [0x5C] + Decode([c] + rest)
    ensures Decode("\\") == [0x5C]
  {
    assert (['\\', c] + rest)[1..] == [c] + rest;
  }

  /** A request line without escapes followed by `\r\n\r\n` is its
      characters and then CR LF CR LF: the `GetRequest` probe string
      `GET / HTTP/1.0\r\n\r\n` is 14 + 4 = 18 bytes. */
  lemma DecodeRequest(line: string)
    requires '\\' !in line
    ensures Decode(line + "\\r\\n\\r\\n") == Bytes(line) + [0x0D, 0x0A, 0x0D, 0x0A]
    ensures line == "GET / HTTP/1.0" ==> |Decode(line + "\\r\\n\\r\\n")| == 18
  {
    DecodePlainPrefix(line, "\\r\\n\\r\\n");
    DecodeLineEnds();
  }

  /** `\r\n\r\n` is the four bytes CR LF CR LF. */
  lemma DecodeLineEnds()
    ensures Decode("\\r\\n\\r\\n") == [0x0D, 0x0A, 0x0D, 0x0A]
  {
    DecodeSimpleEscape('r', "\\n\\r\\n");
    DecodeSimpleEscape('n', "\\r\\n");
    DecodeSimpleEscape('r', "\\n");
    DecodeSimpleEscape('n', "");
    assert ['\\', 'r'] + "\\n\\r\\n" == "\\r\\n\\r\\n";
    assert ['\\', 'n'] + "\\r\\n" == "\\n\\r\\n";
    assert ['\\', 'r'] + "\\n" == "\\r\\n";
    assert ['\\', 'n'] + "" == "\\n";
  }

  // ---------------------------------------------------------------------
  // Properties of the substitution

  /** A text that contains a placeholder contains `$`. */
  lemma PlaceholderHasDollar(s: string, x: string)
    ensures Contains(s, "$" + x) ==> '$' in s
  {
    if Contains(s, "$" + x) {
      var i := ContainsWitness(s, "$" + x);
      assert s[i] == ("$" + x)[0];
    }
  }

  lemma {:induction false} SubstituteUpToNoDollar(value: string, groups: seq<Option<string>>, n: nat)
    requires n <= |groups| && '$' !in value
    ensures SubstituteUpTo(value, groups, n) == value
    decreases n
  {
    if n > 1 {
      SubstituteUpToNoDollar(value, groups, n - 1);
      PlaceholderHasDollar(value, NatToString(n - 1));
      if groups[n - 1].Some? {
        ReplaceAbsent(value, "$" + NatToString(n - 1), groups[n - 1].value);
      }
    }
  }

  /** A template without `$` is returned unchanged. */
  lemma SubstituteNoDollar(value: string, groups: seq<Option<string>>)
    requires '$' !in value
    ensures Substitute(value, groups) == value
  {
    SubstituteUpToNoDollar(value, groups, |groups|);
  }

  /** The placeholder `$i` of a one-digit group number. */
  lemma PlaceholderOneDigit(i: nat)
    requires 1 <= i <= 9
    ensures "$" + NatToString(i) == ['$', DigitChar(i)]
  {
  }

  /** While the groups before `i` are substituted, a template whose only
      `$` are the placeholders `$i` of a one-digit `i` stays as it is. */
  lemma {:induction false} SubstituteUpToKeeps(pieces: seq<string>, i: nat, groups: seq<Option<string>>, n: nat)
    requires 1 <= i <= 9 && n <= i && i < |groups|
    requires |pieces| > 0 && forall k :: 0 <= k < |pieces| ==> '$' !in pieces[k]
    ensures SubstituteUpTo(Join(pieces, "$" + NatToString(i)), groups, n) == Join(pieces, "$" + NatToString(i))
    decreases n
  {
    if n > 1 {
      SubstituteUpToKeeps(pieces, i, groups, n - 1);
      if groups[n - 1].Some? {
        var sep, pat := "$" + NatToString(i), "$" + NatToString(n - 1);
        PlaceholderOneDigit(i);
        PlaceholderOneDigit(n - 1);
        assert DigitValue(sep[1]) != DigitValue(pat[1]);
        assert sep[..|pat|] == sep;
        ReplaceJoinOther(pieces, sep, pat, groups[n - 1].value);
      }
    }
  }

  /** Once a step leaves no `$`, the later steps change nothing. */
  lemma {:induction false} SubstituteUpToSettled(value: string, groups: seq<Option<string>>, k: nat, n: nat)
    requires 1 <= k <= n <= |groups| && '$' !in SubstituteUpTo(value, groups, k)
    ensures SubstituteUpTo(value, groups, n) == SubstituteUpTo(value, groups, k)
    decreases n
  {
    if n > k {
      SubstituteUpToSettled(value, groups, k, n - 1);
      var r := SubstituteUpTo(value, groups, k);
      if groups[n - 1].Some? {
        ReplaceSkip(r, "", "$" + NatToString(n - 1), groups[n - 1].value);
        assert r + "" == r;
      }
    }
  }

  /** Every `$i` of a participating group `i` from 1 to 9 becomes that
      group's text: a template made of `$`-free pieces joined by `$i`
      comes out as the pieces joined by the group, when the group's text
      holds no `$` of its own. */
  lemma SubstituteFills(pieces: seq<string>, i: nat, groups: seq<Option<string>>)
    requires 1 <= i <= 9 && i < |groups| && groups[i].Some? && '$' !in groups[i].value
    requires |pieces| > 0 && forall k :: 0 <= k < |pieces| ==> '$' !in pieces[k]
    ensures Substitute(Join(pieces, "$" + NatToString(i)), groups) == Join(pieces, groups[i].value)
  {
    var t := Join(pieces, "$" + NatToString(i));
    SubstituteUpToFills(pieces, i, groups);
    JoinAvoids(pieces, groups[i].value, '$');
    SubstituteUpToSettled(t, groups, i + 1, |groups|);
  }

  /** The step for group `i` turns the template into the pieces joined by
      the group's text. */
  lemma SubstituteUpToFills(pieces: seq<string>, i: nat, groups: seq<Option<string>>)
    requires 1 <= i <= 9 && i < |groups| && groups[i].Some?
    requires |pieces| > 0 && forall k :: 0 <= k < |pieces| ==> '$' !in pieces[k]
    ensures SubstituteUpTo(Join(pieces, "$" + NatToString(i)), groups, i + 1) == Join(pieces, groups[i].value)
  {
    var sep := "$" + NatToString(i);
    SubstituteUpToKeeps(pieces, i, groups, i);
    SubstituteUpToStep(Join(pieces, sep), groups, i);
    ReplaceJoin(pieces, sep, groups[i].value);
  }

  /** Step `n` substitutes group `n` when it took part. */
  lemma SubstituteUpToStep(value: string, groups: seq<Option<string>>, n: nat)
    requires 1 <= n < |groups|
    ensures SubstituteUpTo(value, groups, n + 1) ==
      if groups[n].Some? then ReplaceAll(SubstituteUpTo(value, groups, n), "$" + NatToString(n), groups[n].value)
      else SubstituteUpTo(value, groups, n)
  {
  }

  /** Groups are substituted in ascending order, so `$1` claims the front
      of `$10`: the template `$10` becomes group 1 followed by `0`, and a
      tenth group is never used. */
  lemma SubstituteTenIsOneThenZero(groups: seq<Option<string>>, g: string)
    requires |groups| > 1 && groups[1] == Some(g) && '$' !in g
    ensures Substitute("$10", groups) == g + "0"
  {
    SubstituteFills(["", "0"], 1, groups);
    assert Join(["", "0"], "$" + NatToString(1)) == "$10";
    assert Join(["", "0"], g) == g + "0";
  }

  /** `v/$1/` against `^SSH-([\d.]+)-` on `SSH-2.0-OpenSSH_8.9`, whose
      captures are the whole match `SSH-2.0-` and the group `2.0`. */
  lemma SubstituteSshVersion()
    ensures Substitute("$1", [Some("SSH-2.0-"), Some("2.0")]) == "2.0"
  {
    assert "$" + NatToString(1) == "$1";
    assert ReplaceAll("$1", "$1", "2.0") == "2.0" + ReplaceAll("", "$1", "2.0");
    assert SubstituteUpTo("$1", [Some("SSH-2.0-"), Some("2.0")], 1) == "$1";
  }

  /** A group that did not take part leaves its placeholder literal, and
      so does a placeholder beyond the last group. */
  lemma SubstituteKeepsLiteral(whole: string, g: string)
    ensures Substitute("$1", [Some(whole), None]) == "$1"
    ensures Substitute("$2", [Some(whole), Some(g)]) == "$2"
  {
    assert "$" + NatToString(1) == "$1";
    assert SubstituteUpTo("$1", [Some(whole), None], 1) == "$1";
    assert SubstituteUpTo("$2", [Some(whole), Some(g)], 1) == "$2";
    assert !Contains("", "$1");
    assert !Contains("2", "$1");
    assert "$2"[..2][1] != "$1"[1];
    ReplaceAbsent("$2", "$1", g);
  }

  // ---------------------------------------------------------------------
  // Matching one match line

  /** Service detection result (`ServiceInfo`). */
  datatype ServiceInfo = ServiceInfo(
    service: string,
    version: Option<string>,
    product: Option<string>,
    extraInfo: Option<string>,
    hostname: Option<string>,
    osInfo: Option<string>,
    deviceType: Option<string>,
    cpe: Option<string>,
    confidence: nat)

  /** The regular-expression library, abstracted: whether a pattern
      compiles, and the capture groups of the first match of a compiled
      pattern in a text (index 0 the whole match, `None` for a group that
      did not take part), or `None` when there is no match. */
  datatype RegexEngine = RegexEngine(
    compiles: string -> bool,
    captures: (string, string) -> Option<seq<Option<string>>>)

  /** The template stored under `key`, substituted, once `key` is among the
      keys already visited. */
  function Field(entry: MatchEntry, visited: set<string>, key: string, groups: seq<Option<string>>): Option<string> {
    if key in visited && key in entry.versionInfo then Some(Substitute(entry.versionInfo[key], groups)) else None
  }

  /** The result being built after the keys in `visited` were processed. */
  function Extracted(entry: MatchEntry, groups: seq<Option<string>>, visited: set<string>): ServiceInfo {
    ServiceInfo(entry.service,
      Field(entry, visited, "v", groups), Field(entry, visited, "p", groups),
      Field(entry, visited, "i", groups), Field(entry, visited, "h", groups),
      Field(entry, visited, "o", groups), Field(entry, visited, "d", groups),
      Field(entry, visited, "cpe", groups), 90)
  }

  /** `match_response`, as a value. */
  function MatchResult(response: string, entry: MatchEntry, rx: RegexEngine): Option<ServiceInfo> {
    if !rx.compiles(entry.pattern) then None
    else match rx.captures(entry.pattern, response)
      case None => None
      case Some(groups) => Some(Extracted(entry, groups, entry.versionInfo.Keys))
  }

  /** `match_response`: builds the result and fills one field per key of the
      version map, visiting the keys in an arbitrary order. */
  method MatchResponse(response: string, entry: MatchEntry, rx: RegexEngine) returns (r: Option<ServiceInfo>)
    ensures r == MatchResult(response, entry, rx)
  {
    if !rx.compiles(entry.pattern) {
      return None;
    }
    var captures := rx.captures(entry.pattern, response);
    if captures.None? {
      return None;
    }
    var groups := captures.value;
    var info := ServiceInfo(entry.service, None, None, None, None, None, None, None, 90);
    var remaining := entry.versionInfo.Keys;
    assert info == Extracted(entry, groups, {});
    while remaining != {}
      invariant remaining <= entry.versionInfo.Keys
      invariant info == Extracted(entry, groups, entry.versionInfo.Keys - remaining)
      decreases |remaining|
    {
      var key :| key in remaining;
      ghost var visited := entry.versionInfo.Keys - remaining;
      info := VisitKey(entry, groups, visited, info, key);
      remaining := remaining - {key};
      assert entry.versionInfo.Keys - remaining == visited + {key};
    }
    assert entry.versionInfo.Keys - remaining == entry.versionInfo.Keys;
    return Some(info);
  }

  /** The body of the loop of `match_response` for one key. */
  method VisitKey(entry: MatchEntry, groups: seq<Option<string>>, ghost visited: set<string>,
                  info: ServiceInfo, key: string) returns (info': ServiceInfo)
    requires key in entry.versionInfo && info == Extracted(entry, groups, visited)
    ensures info' == Extracted(entry, groups, visited + {key})
  {
    var processed := ProcessVersionField(entry.versionInfo[key], groups);
    info' := SetField(info, key, processed);
    ExtractedVisit(entry, groups, visited, key);
  }

  /** The `match key.as_str()` of `match_response`: the field of one key;
      any other key changes nothing. */
  function SetField(info: ServiceInfo, key: string, value: string): ServiceInfo {
    if key == "p" then info.(product := Some(value))
    else if key == "v" then info.(version := Some(value))
    else if key == "i" then info.(extraInfo := Some(value))
    else if key == "h" then info.(hostname := Some(value))
    else if key == "o" then info.(osInfo := Some(value))
    else if key == "d" then info.(deviceType := Some(value))
    else if key == "cpe" then info.(cpe := Some(value))
    else info
  }

  /** Visiting one more key sets exactly that key's field. */
  lemma ExtractedVisit(entry: MatchEntry, groups: seq<Option<string>>, visited: set<string>, key: string)
    requires key in entry.versionInfo
    ensures Extracted(entry, groups, visited + {key}) ==
      SetField(Extracted(entry, groups, visited), key, Substitute(entry.versionInfo[key], groups))
  {
    var value := Substitute(entry.versionInfo[key], groups);
    var before, after := Extracted(entry, groups, visited), Extracted(entry, groups, visited + {key});
    if key == "p" {
      assert after == before.(product := Some(value));
    } else if key == "v" {
      assert after == before.(version := Some(value));
    } else if key == "i" {
      assert after == before.(extraInfo := Some(value));
    } else if key == "h" {
      assert after == before.(hostname := Some(value));
    } else if key == "o" {
      assert after == before.(osInfo := Some(value));
    } else if key == "d" {
      assert after == before.(deviceType := Some(value));
    } else if key == "cpe" {
      assert after == before.(cpe := Some(value));
    } else {
      assert after == before;
    }
  }

  /** `match_response` fails exactly when the pattern does not compile or
      does not match; a match has the entry's service, confidence 90, each
      of `p v i h o d cpe` substituted into its own field, and `None` for
      each of them the entry lacks. */
  lemma MatchResultShape(response: string, entry: MatchEntry, rx: RegexEngine)
    ensures MatchResult(response, entry, rx).None? <==>
      !rx.compiles(entry.pattern) || rx.captures(entry.pattern, response).None?
    ensures MatchResult(response, entry, rx).Some? ==>
      var info, groups, vi := MatchResult(response, entry, rx).value,
                              rx.captures(entry.pattern, response).value, entry.versionInfo;
      && info.service == entry.service && info.confidence == 90
      && info.product == (if "p" in vi then Some(Substitute(vi["p"], groups)) else None)
      && info.version == (if "v" in vi then Some(Substitute(vi["v"], groups)) else None)
      && info.extraInfo == (if "i" in vi then Some(Substitute(vi["i"], groups)) else None)
      && info.hostname == (if "h" in vi then Some(Substitute(vi["h"], groups)) else None)
      && info.osInfo == (if "o" in vi then Some(Substitute(vi["o"], groups)) else None)
      && info.deviceType == (if "d" in vi then Some(Substitute(vi["d"], groups)) else None)
      && info.cpe == (if "cpe" in vi then Some(Substitute(vi["cpe"], groups)) else None)
  {
  }

  /** Keys other than `p v i h o d cpe` are ignored. */
  lemma MatchIgnoresOtherKeys(response: string, entry: MatchEntry, rx: RegexEngine, key: string, value: string)
    requires key !in VersionKeys
    ensures MatchResult(response, entry.(versionInfo := entry.versionInfo[key := value]), rx) ==
            MatchResult(response, entry, rx)
  {
    var other := entry.(versionInfo := entry.versionInfo[key := value]);
    if rx.compiles(entry.pattern) && rx.captures(entry.pattern, response).Some? {
      var groups := rx.captures(entry.pattern, response).value;
      assert Extracted(other, groups, other.versionInfo.Keys) == Extracted(entry, groups, entry.versionInfo.Keys);
    }
  }

  // ---------------------------------------------------------------------
  // One probe

  /** The first of `entries` that matches the response. */
  function FirstMatch(response: string, entries: seq<MatchEntry>, rx: RegexEngine): Option<ServiceInfo>
    decreases |entries|
  {
    if entries == [] then None
    else match MatchResult(response, entries[0], rx)
      case Some(info) => Some(info)
      case None => FirstMatch(response, entries[1..], rx)
  }

  /** First match wins: no entry matches exactly when the result is `None`,
      and otherwise the result is that of the earliest entry that matches. */
  lemma {:induction false} FirstMatchEarliest(response: string, entries: seq<MatchEntry>, rx: RegexEngine, i: nat)
    requires i < |entries| && MatchResult(response, entries[i], rx).Some?
    requires forall j :: 0 <= j < i ==> MatchResult(response, entries[j], rx).None?
    ensures FirstMatch(response, entries, rx) == MatchResult(response, entries[i], rx)
    decreases i
  {
    if i > 0 {
      assert MatchResult(response, entries[0], rx).None?;
      forall j | 0 <= j < i - 1
        ensures MatchResult(response, entries[1..][j], rx).None?
      {
        assert entries[1..][j] == entries[j + 1];
      }
      FirstMatchEarliest(response, entries[1..], rx, i - 1);
    }
  }

  lemma {:induction false} FirstMatchNone(response: string, entries: seq<MatchEntry>, rx: RegexEngine)
    ensures FirstMatch(response, entries, rx).None? <==>
            forall j :: 0 <= j < |entries| ==> MatchResult(response, entries[j], rx).None?
    decreases |entries|
  {
    if entries != [] {
      FirstMatchNone(response, entries[1..], rx);
      if MatchResult(response, entries[0], rx).None? {
        assert forall j :: 1 <= j < |entries| ==> entries[j] == entries[1..][j - 1];
      }
    }
  }

  /** What the network did during one `try_probe`: whether writing the
      probe string ran into the timeout, and the text of the one read of up
      to 4096 bytes when it returned at least one byte (`None` when it
      failed, timed out or returned none). */
  datatype Exchange = Exchange(sendTimedOut: bool, reply: Option<string>)

  /** `try_probe`, as a value: nothing without a reply, then the first hard
      match, then the first soft match at confidence 50. */
  function TryOutcome(probe: ProbeEntry, ex: Exchange, rx: RegexEngine): Option<ServiceInfo> {
    if probe.probeString != "" && ex.sendTimedOut then None
    else match ex.reply
      case None => None
      case Some(response) =>
        match FirstMatch(response, probe.matches, rx)
        case Some(info) => Some(info)
        case None =>
          match FirstMatch(response, probe.softMatches, rx)
          case Some(info) => Some(info.(confidence := 50))
          case None => None
  }

  /** `try_probe`: sends the decoded probe string, when there is one, to
      `send`, which stands for the connection and answers with what
      happened; then tries the hard and the soft matches in order. */
  method TryProbe(probe: ProbeEntry, send: seq<byte> -> Exchange, rx: RegexEngine) returns (r: Option<ServiceInfo>)
    ensures r == TryOutcome(probe, send(Decode(probe.probeString)), rx)
  {
    var payload := DecodeProbeString(probe.probeString);
    var ex := send(payload);
    if probe.probeString != "" && ex.sendTimedOut {
      return None;
    }
    if ex.reply.None? {
      return None;
    }
    var response := ex.reply.value;
    r := FirstMatching(response, probe.matches, rx);
    if r.Some? {
      return;
    }
    r := FirstMatching(response, probe.softMatches, rx);
    if r.Some? {
      r := Some(r.value.(confidence := 50));
    }
  }

  /** The loop of `try_probe` over one list of match entries, returning at
      the first that matches. */
  method FirstMatching(response: string, entries: seq<MatchEntry>, rx: RegexEngine) returns (r: Option<ServiceInfo>)
    ensures r == FirstMatch(response, entries, rx)
  {
    var k := 0;
    while k < |entries|
      invariant 0 <= k <= |entries|
      invariant FirstMatch(response, entries[k..], rx) == FirstMatch(response, entries, rx)
    {
      r := MatchResponse(response, entries[k], rx);
      if r.Some? {
        return;
      }
      assert entries[k..][1..] == entries[k + 1..];
      k := k + 1;
    }
    r := None;
  }

  /** `try_probe` answers nothing unless a read returned data, and nothing
      when a non-empty probe string could not be written in time. */
  lemma TryNeedsReply(probe: ProbeEntry, ex: Exchange, rx: RegexEngine)
    ensures ex.reply.None? ==> TryOutcome(probe, ex, rx).None?
    ensures probe.probeString != "" && ex.sendTimedOut ==> TryOutcome(probe, ex, rx).None?
  {
  }

  /** The earliest hard match that matches wins, at confidence 90. */
  lemma TryHardMatchWins(probe: ProbeEntry, response: string, rx: RegexEngine, i: nat)
    requires i < |probe.matches| && MatchResult(response, probe.matches[i], rx).Some?
    requires forall j :: 0 <= j < i ==> MatchResult(response, probe.matches[j], rx).None?
    ensures TryOutcome(probe, Exchange(false, Some(response)), rx) == MatchResult(response, probe.matches[i], rx)
    ensures TryOutcome(probe, Exchange(false, Some(response)), rx).value.confidence == 90
  {
    FirstMatchEarliest(response, probe.matches, rx, i);
  }

  /** Soft matches count only when no hard match matches; the earliest that
      matches then wins at confidence 50. */
  lemma TrySoftMatchWins(probe: ProbeEntry, response: string, rx: RegexEngine, i: nat)
    requires forall j :: 0 <= j < |probe.matches| ==> MatchResult(response, probe.matches[j], rx).None?
    requires i < |probe.softMatches| && MatchResult(response, probe.softMatches[i], rx).Some?
    requires forall j :: 0 <= j < i ==> MatchResult(response, probe.softMatches[j], rx).None?
    ensures TryOutcome(probe, Exchange(false, Some(response)), rx) ==
            Some(MatchResult(response, probe.softMatches[i], rx).value.(confidence := 50))
  {
    FirstMatchNone(response, probe.matches, rx);
    FirstMatchEarliest(response, probe.softMatches, rx, i);
  }

  /** A result has confidence 90 exactly when a hard match matched, and 50
      otherwise. */
  lemma TryConfidence(probe: ProbeEntry, ex: Exchange, rx: RegexEngine)
    requires TryOutcome(probe, ex, rx).Some?
    ensures ex.reply.Some?
    ensures TryOutcome(probe, ex, rx).value.confidence == 90 <==>
            exists j :: 0 <= j < |probe.matches| && MatchResult(ex.reply.value, probe.matches[j], rx).Some?
    ensures TryOutcome(probe, ex, rx).value.confidence in {50, 90}
  {
    var response := ex.reply.value;
    FirstMatchNone(response, probe.matches, rx);
    var hard := FirstMatch(response, probe.matches, rx);
    if hard.Some? {
      FirstMatchConfidence(response, probe.matches, rx);
    }
  }

  lemma {:induction false} FirstMatchConfidence(response: string, entries: seq<MatchEntry>, rx: RegexEngine)
    requires FirstMatch(response, entries, rx).Some?
    ensures FirstMatch(response, entries, rx).value.confidence == 90
    decreases |entries|
  {
    if MatchResult(response, entries[0], rx).None? {
      FirstMatchConfidence(response, entries[1..], rx);
    }
  }

  // ---------------------------------------------------------------------
  // Choosing the probes for a port

  /** Whether one `ports` string of a probe names the port, by substring. */
  predicate MentionsPort(spec: string, port: PortSpec.Port) {
    Contains(spec, NatToString(port)) || Contains(spec, "T:" + NatToString(port))
  }

  predicate Mentions(probe: ProbeEntry, port: PortSpec.Port) {
    exists k :: 0 <= k < |probe.ports| && MentionsPort(probe.ports[k], port)
  }

  predicate IsTcp(probe: ProbeEntry) {
    probe.protocol == "TCP"
  }

  /** The two rules of `get_relevant_probes`: TCP probes listing the port,
      and the common TCP probes used when none does. */
  datatype Selector = ForPort(port: PortSpec.Port) | Common

  predicate Selects(sel: Selector, probe: ProbeEntry) {
    IsTcp(probe) &&
    match sel
    case ForPort(port) => Mentions(probe, port)
    case Common => probe.name == "GetRequest" || probe.name == "GenericLines"
  }

  /** The indices of the probes `sel` selects, in database order. */
  function Selected(probes: seq<ProbeEntry>, sel: Selector): seq<nat> {
    if probes == [] then []
    else Selected(probes[..|probes| - 1], sel) + (if Selects(sel, probes[|probes| - 1]) then [|probes| - 1] else [])
  }

  /** `get_relevant_probes`, as indices into the database. */
  function Relevant(probes: seq<ProbeEntry>, port: PortSpec.Port): seq<nat> {
    var listed := Selected(probes, ForPort(port));
    if listed != [] then listed else Selected(probes, Common)
  }

  lemma SelectedSnoc(probes: seq<ProbeEntry>, sel: Selector, i: nat)
    requires i < |probes|
    ensures Selected(probes[..i + 1], sel) == Selected(probes[..i], sel) + (if Selects(sel, probes[i]) then [i] else [])
  {
    assert probes[..i + 1][..i] == probes[..i];
  }

  /** The selection holds exactly the selected probes, each once, in
      ascending (database) order. */
  lemma {:induction false} SelectedExactly(probes: seq<ProbeEntry>, sel: Selector)
    ensures forall k :: k in Selected(probes, sel) <==> 0 <= k < |probes| && Selects(sel, probes[k])
    ensures forall a, b :: 0 <= a < b < |Selected(probes, sel)| ==> Selected(probes, sel)[a] < Selected(probes, sel)[b]
    decreases |probes|
  {
    if probes != [] {
      var init := probes[..|probes| - 1];
      SelectedExactly(init, sel);
      assert forall k :: 0 <= k < |init| ==> init[k] == probes[k];
      var before := Selected(init, sel);
      assert forall a :: 0 <= a < |before| ==> before[a] in before;
      assert forall a :: 0 <= a < |before| ==> before[a] < |probes| - 1;
    }
  }

  /** `get_relevant_probes` returns only TCP probes, in database order, each
      at most once; when some TCP probe lists the port it returns exactly
      those, and otherwise exactly the TCP probes named `GetRequest` or
      `GenericLines`. */
  lemma RelevantExactly(probes: seq<ProbeEntry>, port: PortSpec.Port)
    ensures forall k :: k in Relevant(probes, port) ==> 0 <= k < |probes| && IsTcp(probes[k])
    ensures forall a, b :: 0 <= a < b < |Relevant(probes, port)| ==> Relevant(probes, port)[a] < Relevant(probes, port)[b]
    ensures (exists k :: 0 <= k < |probes| && IsTcp(probes[k]) && Mentions(probes[k], port)) ==>
      forall k :: k in Relevant(probes, port) <==> 0 <= k < |probes| && IsTcp(probes[k]) && Mentions(probes[k], port)
    ensures (forall k :: 0 <= k < |probes| && IsTcp(probes[k]) ==> !Mentions(probes[k], port)) ==>
      forall k :: k in Relevant(probes, port) <==>
        0 <= k < |probes| && IsTcp(probes[k]) && probes[k].name in {"GetRequest", "GenericLines"}
  {
    var listed, common := Selected(probes, ForPort(port)), Selected(probes, Common);
    if listed != [] {
      assert Relevant(probes, port) == listed;
      SelectedExactly(probes, ForPort(port));
      assert listed[0] in listed;
    } else {
      assert Relevant(probes, port) == common;
      SelectedExactly(probes, ForPort(port));
      SelectedExactly(probes, Common);
    }
  }

  /** The `T:<port>` test adds nothing: a string containing `T:<port>`
      contains `<port>`. */
  lemma MentionsDigitsOnly(spec: string, port: PortSpec.Port)
    ensures MentionsPort(spec, port) <==> Contains(spec, NatToString(port))
  {
    if Contains(spec, "T:" + NatToString(port)) {
      ContainsSuffixOf(spec, "T:", NatToString(port));
    }
  }

  /** `get_relevant_probes`: the loop over the database, the inner loop over
      each probe's `ports` with its `break`, and the fallback loop. */
  method GetRelevantProbes(db: NmapProbes, port: PortSpec.Port) returns (relevant: seq<nat>)
    ensures relevant == Relevant(db.probes, port)
  {
    var probes := db.probes;
    relevant := [];
    var i := 0;
    while i < |probes|
      invariant 0 <= i <= |probes|
      invariant relevant == Selected(probes[..i], ForPort(port))
    {
      SelectedSnoc(probes, ForPort(port), i);
      if probes[i].protocol == "TCP" {
        var listed := ListsPort(probes[i].ports, port);
        if listed {
          relevant := relevant + [i];
        }
      }
      i := i + 1;
    }
    assert probes[..i] == probes;
    if relevant == [] {
      i := 0;
      while i < |probes|
        invariant 0 <= i <= |probes|
        invariant relevant == Selected(probes[..i], Common)
      {
        SelectedSnoc(probes, Common, i);
        if probes[i].protocol == "TCP" && (probes[i].name == "GetRequest" || probes[i].name == "GenericLines") {
          relevant := relevant + [i];
        }
        i := i + 1;
      }
      assert probes[..i] == probes;
    }
  }

  /** The inner loop of `get_relevant_probes`: stops at the first `ports`
      string that names the port. */
  method ListsPort(specs: seq<string>, port: PortSpec.Port) returns (found: bool)
    ensures found <==> exists k :: 0 <= k < |specs| && MentionsPort(specs[k], port)
  {
    var portStr := NatToString(port);
    found := false;
    var k := 0;
    while k < |specs|
      invariant 0 <= k <= |specs|
      invariant forall j :: 0 <= j < k ==> !MentionsPort(specs[j], port)
    {
      if Contains(specs[k], portStr) || Contains(specs[k], "T:" + portStr) {
        found := true;
        break;
      }
      k := k + 1;
    }
  }

  // ---------------------------------------------------------------------
  // Detection over the whole database

  predicate IsNullProbe(probe: ProbeEntry) {
    probe.name == "NULL" && probe.protocol == "TCP"
  }

  /** `iter().find(..)` of the NULL probe: the first TCP probe named `NULL`. */
  function FirstNull(probes: seq<ProbeEntry>): (r: Option<nat>)
    ensures r.Some? ==> r.value < |probes| && IsNullProbe(probes[r.value]) &&
                        forall j :: 0 <= j < r.value ==> !IsNullProbe(probes[j])
    ensures r.None? ==> forall j :: 0 <= j < |probes| ==> !IsNullProbe(probes[j])
    decreases |probes|
  {
    if probes == [] then None
    else if IsNullProbe(probes[0]) then Some(0)
    else match FirstNull(probes[1..])
      case None => None
      case Some(j) => Some(j + 1)
  }

  /** The probes `detect_service` tries, in order: the NULL probe when
      there is one, then the relevant probes. */
  function Candidates(probes: seq<ProbeEntry>, port: PortSpec.Port): seq<nat> {
    (match FirstNull(probes) case Some(j) => [j] case None => []) + Relevant(probes, port)
  }

  /** The exchanges of one connection: the `n`-th probe tried on it gets
      `net(n, payload)`. */
  type Network = (nat, seq<byte>) -> Exchange

  /** Every index of `order` points into `probes`. */
  predicate InRange(order: seq<nat>, probes: seq<ProbeEntry>) {
    forall i :: 0 <= i < |order| ==> order[i] < |probes|
  }

  /** Tries the probes `order` from attempt number `attempt` on and returns
      the first answer. */
  function FirstService(probes: seq<ProbeEntry>, order: seq<nat>, attempt: nat, net: Network, rx: RegexEngine): Option<ServiceInfo>
    requires InRange(order, probes)
    decreases |order|
  {
    if order == [] then None
    else
      var probe := probes[order[0]];
      match TryOutcome(probe, net(attempt, Decode(probe.probeString)), rx)
      case Some(info) => Some(info)
      case None => FirstService(probes, order[1..], attempt + 1, net, rx)
  }

  lemma CandidatesInRange(probes: seq<ProbeEntry>, port: PortSpec.Port)
    ensures InRange(Candidates(probes, port), probes) && InRange(Relevant(probes, port), probes)
  {
    RelevantExactly(probes, port);
    var r := Relevant(probes, port);
    assert forall i :: 0 <= i < |r| ==> r[i] in r;
  }

  /** `detect_service`, as a value. */
  function Detect(db: NmapProbes, port: PortSpec.Port, net: Network, rx: RegexEngine): Option<ServiceInfo> {
    CandidatesInRange(db.probes, port);
    FirstService(db.probes, Candidates(db.probes, port), 0, net, rx)
  }

  /** Detection is the NULL probe's answer, if any, and otherwise the
      first answer of the relevant probes, numbered after it. */
  lemma DetectUnfold(db: NmapProbes, port: PortSpec.Port, net: Network, rx: RegexEngine)
    ensures InRange(Relevant(db.probes, port), db.probes)
    ensures Detect(db, port, net, rx) ==
      match FirstNull(db.probes)
      case None => FirstService(db.probes, Relevant(db.probes, port), 0, net, rx)
      case Some(j) =>
        match TryOutcome(db.probes[j], net(0, Decode(db.probes[j].probeString)), rx)
        case Some(info) => Some(info)
        case None => FirstService(db.probes, Relevant(db.probes, port), 1, net, rx)
  {
    CandidatesInRange(db.probes, port);
    var cands := Candidates(db.probes, port);
    if FirstNull(db.probes).Some? {
      assert cands[0] == FirstNull(db.probes).value;
      assert cands[1..] == Relevant(db.probes, port);
    } else {
      assert cands == Relevant(db.probes, port);
    }
  }

  /** `detect_service`: the NULL probe first, then the relevant probes, all
      on one connection, stopping at the first answer. */
  method DetectService(db: NmapProbes, port: PortSpec.Port, net: Network, rx: RegexEngine) returns (r: Option<ServiceInfo>)
    ensures r == Detect(db, port, net, rx)
  {
    DetectUnfold(db, port, net, rx);
    var probes := db.probes;
    var attempt := 0;
    var nullProbe := FirstNull(probes);
    if nullProbe.Some? {
      var j := nullProbe.value;
      r := TryProbe(probes[j], payload => net(0, payload), rx);
      if r.Some? {
        return;
      }
      attempt := 1;
    }
    var relevant := GetRelevantProbes(db, port);
    r := FirstAnswer(probes, relevant, attempt, net, rx);
  }

  /** The loop of `detect_service` over the relevant probes. */
  method FirstAnswer(probes: seq<ProbeEntry>, order: seq<nat>, attempt: nat, net: Network, rx: RegexEngine) returns (r: Option<ServiceInfo>)
    requires InRange(order, probes)
    ensures r == FirstService(probes, order, attempt, net, rx)
  {
    var k := 0;
    while k < |order|
      invariant 0 <= k <= |order|
      invariant FirstService(probes, order[k..], attempt + k, net, rx) == FirstService(probes, order, attempt, net, rx)
    {
      var probe := probes[order[k]];
      var send := payload => net(attempt + k, payload);
      r := TryProbe(probe, send, rx);
      assert r == TryOutcome(probe, net(attempt + k, Decode(probe.probeString)), rx);
      FirstServiceAt(probes, order, k, attempt, net, rx);
      if r.Some? {
        return;
      }
      k := k + 1;
    }
    r := None;
  }

  /** The search from the `k`-th relevant probe on tries that probe first. */
  lemma FirstServiceAt(probes: seq<ProbeEntry>, order: seq<nat>, k: nat, attempt: nat, net: Network, rx: RegexEngine)
    requires InRange(order, probes) && k < |order|
    ensures InRange(order[k..], probes) && InRange(order[k + 1..], probes)
    ensures var probe := probes[order[k]];
      FirstService(probes, order[k..], attempt + k, net, rx) ==
      match TryOutcome(probe, net(attempt + k, Decode(probe.probeString)), rx)
      case Some(info) => Some(info)
      case None => FirstService(probes, order[k + 1..], attempt + k + 1, net, rx)
  {
    assert order[k..][1..] == order[k + 1..];
  }

  /** The first present value of a sequence. */
  function FirstSome<T>(xs: seq<Option<T>>): Option<T>
    decreases |xs|
  {
    if xs == [] then None else if xs[0].Some? then xs[0] else FirstSome(xs[1..])
  }

  lemma {:induction false} FirstSomeNone<T>(xs: seq<Option<T>>)
    ensures FirstSome(xs).None? <==> forall i :: 0 <= i < |xs| ==> xs[i].None?
    decreases |xs|
  {
    if xs != [] {
      FirstSomeNone(xs[1..]);
      assert forall i :: 1 <= i < |xs| ==> xs[i] == xs[1..][i - 1];
    }
  }

  lemma {:induction false} FirstSomeEarliest<T>(xs: seq<Option<T>>, i: nat)
    requires i < |xs| && xs[i].Some?
    requires forall j :: 0 <= j < i ==> xs[j].None?
    ensures FirstSome(xs) == xs[i]
    decreases i
  {
    if i > 0 {
      assert xs[0].None?;
      assert forall j :: 0 <= j < i - 1 ==> xs[1..][j] == xs[j + 1];
      FirstSomeEarliest(xs[1..], i - 1);
    }
  }

  /** What each probe of `order` answers, the `i`-th being attempt
      `attempt + i` on the connection. */
  function Answers(probes: seq<ProbeEntry>, order: seq<nat>, attempt: nat, net: Network, rx: RegexEngine): (r: seq<Option<ServiceInfo>>)
    requires InRange(order, probes)
    ensures |r| == |order|
    ensures forall i :: 0 <= i < |order| ==>
      r[i] == TryOutcome(probes[order[i]], net(attempt + i, Decode(probes[order[i]].probeString)), rx)
  {
    seq(|order|, i requires 0 <= i < |order| =>
      TryOutcome(probes[order[i]], net(attempt + i, Decode(probes[order[i]].probeString)), rx))
  }

  /** The loop of `detect_service` returns the first answer. */
  lemma {:induction false} FirstServiceAnswers(probes: seq<ProbeEntry>, order: seq<nat>, attempt: nat, net: Network, rx: RegexEngine)
    requires InRange(order, probes)
    ensures FirstService(probes, order, attempt, net, rx) == FirstSome(Answers(probes, order, attempt, net, rx))
    decreases |order|
  {
    if order != [] {
      var rest := order[1..];
      FirstServiceAnswers(probes, rest, attempt + 1, net, rx);
      var all, later := Answers(probes, order, attempt, net, rx), Answers(probes, rest, attempt + 1, net, rx);
      assert forall i :: 0 <= i < |later| ==> later[i] == all[i + 1];
      assert all[1..] == later;
    }
  }

  /** `detect_service` finds nothing exactly when no candidate answers,
      and otherwise gives the answer of the earliest candidate that does. */
  lemma DetectFirstAnswer(db: NmapProbes, port: PortSpec.Port, net: Network, rx: RegexEngine, i: nat)
    ensures InRange(Candidates(db.probes, port), db.probes)
    ensures var answers := Answers(db.probes, Candidates(db.probes, port), 0, net, rx);
      && (Detect(db, port, net, rx).None? <==> forall j :: 0 <= j < |answers| ==> answers[j].None?)
      && (i < |answers| && answers[i].Some? && (forall j :: 0 <= j < i ==> answers[j].None?) ==>
          Detect(db, port, net, rx) == answers[i])
  {
    CandidatesInRange(db.probes, port);
    var answers := Answers(db.probes, Candidates(db.probes, port), 0, net, rx);
    FirstServiceAnswers(db.probes, Candidates(db.probes, port), 0, net, rx);
    FirstSomeNone(answers);
    if i < |answers| && answers[i].Some? && (forall j :: 0 <= j < i ==> answers[j].None?) {
      FirstSomeEarliest(answers, i);
    }
  }

  /** The NULL probe is tried first, on the fresh connection: when it
      answers, that is the result, whatever the port. */
  lemma DetectNullFirst(db: NmapProbes, port: PortSpec.Port, net: Network, rx: RegexEngine)
    requires FirstNull(db.probes).Some?
    requires var p := db.probes[FirstNull(db.probes).value]; TryOutcome(p, net(0, Decode(p.probeString)), rx).Some?
    ensures var p := db.probes[FirstNull(db.probes).value];
            Detect(db, port, net, rx) == TryOutcome(p, net(0, Decode(p.probeString)), rx)
  {
    DetectUnfold(db, port, net, rx);
  }

  // ---------------------------------------------------------------------
  // The prober

  /** Port scan result with service detection (`ProbeResult`); the host is
      its textual address. */
  datatype ProbeResult = ProbeResult(
    host: string,
    port: PortSpec.Port,
    protocol: string,
    state: string,
    service: Option<ServiceInfo>,
    banner: Option<string>)

  /** What one port does when probed: the outcome of the connect under the
      timeout, the exchanges of detection on that connection, and the text
      of the single read of up to 1024 bytes of banner grabbing when it
      returned at least one byte. */
  datatype Peer = Peer(connect: ConnectOutcome, net: Network, banner: Option<string>)

  /** `probe_port`, as a value, given the probes loaded. */
  function PortOutcome(loaded: Option<NmapProbes>, host: string, port: PortSpec.Port, peer: Peer, rx: RegexEngine): ProbeResult {
    var result := ProbeResult(host, port, "tcp", "unknown", None, None);
    match peer.connect
    case ConnectFailed(_, _) => result.(state := "closed")
    case DeadlineElapsed => result.(state := "filtered")
    case Connected =>
      match loaded
      case Some(db) => result.(state := "open", service := Detect(db, port, peer.net, rx))
      case None => result.(state := "open", banner := GrabBanner(peer.banner))
  }

  /** `grab_banner`: the text read, trimmed. */
  function GrabBanner(read: Option<string>): (r: Option<string>)
    ensures r.Some? <==> read.Some?
    ensures r.Some? ==> r.value == Trim(read.value)
  {
    match read
    case None => None
    case Some(text) => Some(Trim(text))
  }

  /** Any connect error is "closed" and the timeout "filtered"; only an open
      port is probed further, by detection when probes are loaded and by
      banner grabbing otherwise, never both. */
  lemma PortOutcomeStates(loaded: Option<NmapProbes>, host: string, port: PortSpec.Port, peer: Peer, rx: RegexEngine)
    ensures var r := PortOutcome(loaded, host, port, peer, rx);
      && r.host == host && r.port == port && r.protocol == "tcp"
      && (r.state == "open" <==> peer.connect.Connected?)
      && (r.state == "closed" <==> peer.connect.ConnectFailed?)
      && (r.state == "filtered" <==> peer.connect.DeadlineElapsed?)
      && (r.service.Some? ==> r.state == "open" && loaded.Some?)
      && (r.banner.Some? ==> r.state == "open" && loaded.None?)
      && (peer.connect.Connected? && loaded.Some? ==> r.service == Detect(loaded.value, port, peer.net, rx))
  {
  }

  /** `Prober`: the probe database, once loaded, and the timeout applied to
      every connect, write and read. */
  class Prober {
    var probes: Option<NmapProbes>
    var timeoutMs: nat

    /** `Prober::new`: no probes and a 5000 ms timeout. */
    constructor ()
      ensures probes == None && timeoutMs == 5000
    {
      probes := None;
      timeoutMs := 5000;
    }

    /** `load_probes`, given the outcome of reading and deserialising the
        file: on success the probes are replaced, and on failure the error
        is returned and nothing changes. */
    method LoadProbes(loaded: Result<NmapProbes, string>) returns (r: Result<(), string>)
      modifies this
      ensures loaded.Ok? ==> probes == Some(loaded.value) && r == Ok(())
      ensures loaded.Err? ==> probes == old(probes) && r == Err(loaded.error)
      ensures timeoutMs == old(timeoutMs)
    {
      match loaded
      case Err(e) =>
        return Err(e);
      case Ok(db) =>
        probes := Some(db);
        return Ok(());
    }

    /** `set_timeout`. */
    method SetTimeout(ms: nat)
      requires ms <= U64Max
      modifies this
      ensures timeoutMs == ms && probes == old(probes)
    {
      timeoutMs := ms;
    }

    /** `probe_port`: connects, maps the outcome to a state, and on an open
        port runs detection or banner grabbing. */
    method ProbePort(host: string, port: PortSpec.Port, peer: Peer, rx: RegexEngine) returns (r: ProbeResult)
      ensures r == PortOutcome(probes, host, port, peer, rx)
    {
      r := ProbeResult(host, port, "tcp", "unknown", None, None);
      match peer.connect {
        case ConnectFailed(_, _) =>
          r := r.(state := "closed");
          return;
        case DeadlineElapsed =>
          r := r.(state := "filtered");
          return;
        case Connected =>
          r := r.(state := "open");
      }
      if probes.Some? {
        var service := DetectService(probes.value, port, peer.net, rx);
        r := r.(service := service);
      } else {
        r := r.(banner := GrabBanner(peer.banner));
      }
    }

    /** `probe_ports`: one result per port, in order (`probe_port` never
        fails, so none is dropped); `peers(k)` is the behaviour of the
        `k`-th port probed. */
    method ProbePorts(host: string, ports: seq<PortSpec.Port>, peers: nat -> Peer, rx: RegexEngine) returns (results: seq<ProbeResult>)
      ensures |results| == |ports|
      ensures forall k :: 0 <= k < |ports| ==> results[k] == PortOutcome(probes, host, ports[k], peers(k), rx)
    {
      results := [];
      var k := 0;
      while k < |ports|
        invariant 0 <= k <= |ports|
        invariant |results| == k
        invariant forall j :: 0 <= j < k ==> results[j] == PortOutcome(probes, host, ports[j], peers(j), rx)
      {
        var result := ProbePort(host, ports[k], peers(k), rx);
        results := results + [result];
        k := k + 1;
      }
    }
  }
}
