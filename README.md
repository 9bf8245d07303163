# rmap core in Dafny

rmap is a port scanner written in Rust. This project models the parts of it
that decide what a scan reports, and proves properties of them:

- **the probe database parser** (`src/core/probe/parser.rs`): a single pass over
  the lines of an nmap-service-probes file. It keeps one optional "current
  probe" and builds the exclude list and the ordered probe list. It includes
  the helpers for `q|…|` probe strings, `m|…|flags` match lines and
  `p/…/`-style version fields;
- **the service-detection matcher** (`src/core/probe/operator.rs`): escape
  decoding of probe strings, `$N` capture substitution, the precedence of
  hard matches (confidence 90) over soft matches (confidence 50), the
  selection of relevant probes by port, NULL-probe-first detection, and the
  state mapping of `probe_port`. It also covers the `Prober` object, with its
  `probes` and `timeout_ms` fields;
- **the TCP connect scanner** (`src/core/tcp.rs`): port-spec expansion,
  classification of connect outcomes into open/closed/filtered, bucketing of
  results by state, target resolution and the per-target port map;
- **the UDP scanner** (`src/core/udp.rs`): the fixed DNS, SNMP and NTP probe
  payloads, the per-port outcome mapping, the per-target and combined result
  maps, and the conversion to output states;
- **the earlier TCP scanner** (`src/scanner/tcp.rs`): buckets of port strings,
  the verbose display filter, resolution of every valid address, and the size
  of the target semaphore;
- **the output helpers** (`src/output.rs`): the port→service table, state
  strings, the numeric sort order, the summary counts and the branches of the
  script-result printer.

The three copies of `parse_ports` are the same code up to formatting. They are modelled once,
as `PortSpec.Expand`, and each scanner uses that definition.

The network is never touched. Every socket operation becomes an input:
- a connect outcome (`Net.ConnectOutcome`);
- a UDP peer (`UdpScan.UdpPeer`);
- a probe exchange (`ProbeMatcher.Exchange`);
- a DNS answer, given as a function from name to `Result<string, string>`.

The regex engine is also an input, `ProbeMatcher.RegexEngine`: whether a
pattern compiles, and the capture groups of a match (group 0 being the whole
match). `valid_ip` becomes a predicate parameter. In the source it is exactly
`parse::<IpAddr>().is_ok()`, so the UDP scanner's own `parse::<IpAddr>()` is
modelled with the same predicate.

Rust `Vec`s and `HashMap`s become `seq`s and `map`s. Strings are `seq<char>`,
and the Rust `str` methods the core calls live in `Text`:
- `trim` and `split_whitespace`, over the Unicode White_Space set;
- `split`, `join`, `find`, `rfind`, `contains`, `replace` and `to_string`;
- `u8`/`u16`/`u32` parsing, which accepts one leading `+`.

Methods that model loops are proved against functions that specify them
(`ensures ports == Expand(spec)`), and the properties are proved about those
functions as lemmas. `Prober` is a class, because `load_probes` and
`set_timeout` update its fields in place.

## Model

| member | source | states |
|---|---|---|
| Text.TrimIsSlice | src/core/tcp.rs:64 | the result of `trim` is a slice `s[i..j]` of its input, with only whitespace before `i` and after `j` |
| Text.SplitWhitespace | src/core/probe/parser.rs:55 | defines `split_whitespace` as the maximal runs of non-whitespace; `SplitWhitespaceSkip`, `SplitWhitespaceFirst` and `SplitWhitespaceWord` state how it splits |
| Text.Join | src/core/probe/parser.rs:63 | defines `join(sep)`: the pieces with `sep` between neighbours; `JoinSplit` proves it inverts `Split` |
| Text.ReplaceAll | src/core/probe/operator.rs:265 | defines `str::replace` as left-to-right, non-overlapping replacement; the lemmas below state what it does |
| Text.ReplaceSkip | src/core/probe/operator.rs:265 | a prefix that lacks the first character of the pattern is kept, and replacement goes on after it |
| Text.ReplaceNoMatch | src/core/probe/operator.rs:265 | where the pattern does not start, the first character is kept |
| Text.ReplaceSeparator | src/core/probe/operator.rs:265 | a separator that does not start with the pattern, and holds its first character only at its head, is kept whole |
| Text.ReplaceJoin | src/core/probe/operator.rs:265 | replacing `pat` in pieces joined by `pat` gives the pieces joined by `rep`, when the pieces lack the first character of `pat` |
| Text.ReplaceJoinOther | src/core/probe/operator.rs:265 | replacing a pattern that differs from the separator leaves such a join unchanged |
| Text.JoinAvoids | src/core/probe/parser.rs:63 | a character that is in neither the pieces nor the separator is not in the join |
| Text.Trim | src/core/tcp.rs:64 | `str::trim`: the result has no whitespace at either end, and a string without whitespace is unchanged; `TrimIsSlice` proves it is a slice of the input |
| Text.TrimStart | src/core/probe/parser.rs:47 | leading trim: the dropped prefix is all whitespace and the result does not start with whitespace |
| Text.TrimEnd | src/core/probe/parser.rs:47 | trailing trim: the dropped suffix is all whitespace and the result does not end with whitespace |
| Text.WordEnd | src/core/probe/parser.rs:55 | the first token of `split_whitespace` ends at the first whitespace character |
| Text.SplitWhitespaceSkip | src/core/probe/parser.rs:55 | leading whitespace does not change the tokens |
| Text.SplitWhitespaceFirst | src/core/probe/parser.rs:55 | a string that starts with a non-whitespace character has a first token starting with that character |
| Text.SplitWhitespaceWord | src/core/probe/parser.rs:55 | a word followed by whitespace is the first token, and the rest is tokenised on its own |
| Text.WordEndOfWord | src/core/probe/parser.rs:55 | the first token of a word followed by whitespace ends where the word ends |
| Text.WordEndUnique | src/core/probe/parser.rs:55 | the end of the first token is the only position with no whitespace before it and whitespace at it |
| Text.Split | src/core/tcp.rs:63 | `str::split` on a character yields at least one piece |
| Text.SplitOn | src/core/udp.rs:193 | `str::split` on a string pattern yields at least one piece, so `.next()` always succeeds |
| Text.JoinSplit | src/core/tcp.rs:63 | joining the pieces of a split with the separator gives back the input |
| Text.SplitPiecesAvoid | src/core/tcp.rs:67 | no piece of a split contains the separator |
| Text.SplitAbsent | src/core/tcp.rs:63 | a string without the separator splits into itself |
| Text.SplitConcat | src/core/tcp.rs:63 | splitting `a + c + b` on `c` gives the pieces of `a` followed by those of `b` |
| Text.Find | src/core/probe/parser.rs:184 | `str::find`: the first index holding the character, or none when it is absent |
| Text.RFind | src/core/probe/parser.rs:185 | `str::rfind`: the last index holding the character, or none when it is absent |
| Text.ToLower | src/core/tcp.rs:155 | lower-cases character by character, keeping the length |
| Text.ToLowerIdempotent | src/core/tcp.rs:155 | lower-casing twice is lower-casing once |
| Text.ToUpper | src/output.rs:77 | upper-cases ASCII letters character by character, keeping the length |
| Text.NatToString | src/core/tcp.rs:124 | `to_string` of a number: non-empty decimal digits without a leading zero |
| Text.DigitChar | src/core/tcp.rs:124 | each digit of a number is a decimal digit character with that value |
| Text.DigitsOfNatToString | src/core/tcp.rs:124 | the digits of `to_string` read back as the number |
| Text.ParseUnsigned | src/core/tcp.rs:69-70 | unsigned `parse`: succeeds iff, after an optional leading `+`, the input is at least one digit with a value no larger than the type's maximum, and the result is that value |
| Text.ParseNatToString | src/core/tcp.rs:79 | the decimal text of a number within range parses back to that number |
| Text.ParsePlusNatToString | src/core/tcp.rs:79 | a leading `+` is accepted |
| Text.ParseRejectsWhitespace | src/core/tcp.rs:69-70 | a token containing whitespace does not parse; range halves are not re-trimmed |
| Text.HexValue | src/core/probe/operator.rs:336-338 | a hex digit's value is below 16 |
| Text.ParseHexPair | src/core/probe/operator.rs:336-338 | two hex digits parse to a byte value |
| Text.ContainsAt | src/core/tcp.rs:156 | a substring present at some index makes `contains` true |
| Text.ContainsWitness | src/core/tcp.rs:156 | `contains` being true gives an index where the substring occurs |
| Text.ContainsSuffixOf | src/core/probe/operator.rs:265 | containing `p + x` means containing `x` |
| Text.ReplaceAbsent | src/core/probe/operator.rs:265 | `replace` with an absent pattern leaves the string unchanged |
| Net.Bytes | src/core/probe/operator.rs:347-349 | a character outside an escape becomes one byte, in order |
| PortSpec.Expand | src/core/tcp.rs:60-86 | defines the ports of a specification: each comma-separated token expanded in turn; `ExpandConcat`, `ExpandSingle`, `ExpandRange`, `ExpandEmpty` and the `ExpandDrops` lemmas state its cases |
| PortSpec.TokenPorts | src/core/tcp.rs:64-82 | defines the ports of one trimmed token: a range, a single port, or nothing; `ExpandToken`, `ExpandSingle` and `ExpandRange` state them |
| PortSpec.ParsePort | src/core/tcp.rs:79 | a token is a port exactly when its `u16` parse succeeds, with that value |
| PortSpec.Range | src/core/tcp.rs:72-74 | `start..=end`: `end - start + 1` consecutive ascending ports, none when reversed |
| PortSpec.ParsePorts | src/core/tcp.rs:60-86 | the loop yields exactly the token expansions concatenated in textual order; the copies at `src/core/udp.rs` lines 34-60 and `src/scanner/tcp.rs` lines 47-71 are the same code and are modelled by this member too |
| PortSpec.AppendTokens | src/core/tcp.rs:63-83 | the `for` over the comma-separated tokens leaves the concatenation of their expansions, in order |
| PortSpec.AppendToken | src/core/tcp.rs:64-82 | one trimmed token appends its expansion to the ports so far |
| PortSpec.PushRange | src/core/tcp.rs:72-74 | the inner loop appends the whole range |
| PortSpec.FlatMapConcat | src/core/tcp.rs:63-83 | the expansion of two token lists is the concatenation of their expansions |
| PortSpec.FlatMapMember | src/core/tcp.rs:63-83 | every port in the result comes from some token |
| PortSpec.ExpandConcat | src/core/tcp.rs:63 | `a,b` expands to the ports of `a` followed by those of `b`, duplicates kept |
| PortSpec.ExpandToken | src/core/tcp.rs:63-83 | a spec without commas is one token |
| PortSpec.DigitsAreNotSeparators | src/core/tcp.rs:63-67 | decimal digits are neither whitespace, `,` nor `-` |
| PortSpec.ExpandSingle | src/core/tcp.rs:77-81 | a single port number yields that port |
| PortSpec.RangeTokenShape | src/core/tcp.rs:64-68 | `a-b` with decimal halves is already trimmed and splits into exactly its two halves |
| PortSpec.ExpandRange | src/core/tcp.rs:65-76 | `a-b` yields `a..=b` ascending, `b - a + 1` ports when `a <= b`, nothing when reversed |
| PortSpec.ExpandEmpty | src/core/tcp.rs:63-85 | the empty spec yields no ports |
| PortSpec.ExpandDropsNonNumeric | src/core/tcp.rs:77-81 | a dash-free token that is not a `u16` (non-numeric or out of range) is dropped |
| PortSpec.ExpandDropsManyDashes | src/core/tcp.rs:67-68 | a token with more than one `-` is dropped |
| ProbeParser.ParseProbeString | src/core/probe/parser.rs:178-194 | defines `parse_probe_string` as `Unquote` with lead `q`; `UnquoteDelimited` and `UnquoteUnclosed` state its two outcomes |
| ProbeParser.Step | src/core/probe/parser.rs:47-60 | defines one loop iteration: blank and `#` lines are skipped, others dispatched; `StepDispatches`, `StepExclude`, `StepProbe` and `StepHeaders` state its cases |
| ProbeParser.Dispatch | src/core/probe/parser.rs:60-159 | defines `match parts[0]`: `Exclude`, `Probe` or a directive refining the open probe; `StepExclude` and `StepProbe` state the first two |
| ProbeParser.Refine | src/core/probe/parser.rs:94-155 | defines how a directive changes the open probe; `RefineFields` and `RefineKeepsHeader` state which fields change |
| ProbeParser.Run | src/core/probe/parser.rs:42-159 | defines the parser state after a prefix of the lines; `RunSkipsBlank`, `RunDiscardsWithoutProbe`, `RunHeaders` and `ExcludesInFileOrder` state its properties |
| ProbeParser.ParseProbeFile | src/core/probe/parser.rs:42-165 | defines the database of a whole file, the last open probe flushed; `ParseNmapProbes` is proved against it and `ProbesInFileOrder` states the order |
| ProbeParser.Between | src/core/probe/parser.rs:184-188 | the text between the first and last occurrence of the delimiter, none when it occurs at most once |
| ProbeParser.BetweenDelimited | src/core/probe/parser.rs:184-188 | with the delimiter absent from the tail, the text between the two delimiters is returned |
| ProbeParser.BetweenUnclosed | src/core/probe/parser.rs:184-188 | a delimiter that occurs only once gives none |
| ProbeParser.Unquote | src/core/probe/parser.rs:178-194 | `parse_probe_string`: input not starting with the lead letter, or of length at most 2, is returned unchanged |
| ProbeParser.UnquoteDelimited | src/core/probe/parser.rs:178-194 | `q` + delimiter + body + delimiter + tail without the delimiter gives exactly the body |
| ProbeParser.UnquoteUnclosed | src/core/probe/parser.rs:178-194 | without a closing delimiter the input is returned whole |
| ProbeParser.UnquoteLeadAsDelimiter | src/core/probe/parser.rs:184 | the search starts at the lead letter, so `qqabcq` gives `qabc` |
| ProbeParser.UnquoteLeadDelimited | src/core/probe/parser.rs:180-189 | with the leading letter as its own delimiter, `find` stops at index 0, so the body keeps one copy of the letter |
| ProbeParser.UnquoteLeadUnclosed | src/core/probe/parser.rs:180-189 | with the leading letter as its own delimiter and no later copy, the first and last occurrences are 0 and 1, so the result is empty |
| ProbeParser.ParseVersionField | src/core/probe/parser.rs:246-273 | none below 3 characters; a key is one of p,v,i,h,o,d (the first letter) or `cpe`; a `cpe:` field yields everything after the 4-character prefix |
| ProbeParser.VersionFieldDelimited | src/core/probe/parser.rs:262-268 | `t/body/` gives `(t, body)` |
| ProbeParser.VersionFieldUnclosed | src/core/probe/parser.rs:262-272 | a field whose delimiter occurs once gives none |
| ProbeParser.VersionFieldCpe | src/core/probe/parser.rs:258-260 | `cpe:rest` gives `("cpe", rest)`, delimiters included |
| ProbeParser.VersionInfo | src/core/probe/parser.rs:232-237 | every key of the version map is one of p,v,i,h,o,d,cpe |
| ProbeParser.VersionInfoLastWins | src/core/probe/parser.rs:232-237 | a key is present iff some field parses to it, and its value is that of the last such field |
| ProbeParser.MatchLine | src/core/probe/parser.rs:196-244 | none iff the line has fewer than 3 tokens; the version keys are the allowed ones |
| ProbeParser.MatchLineFields | src/core/probe/parser.rs:196-229 | the service is token 2 and the pattern lies between the delimiters of token 3 with the flags dropped; token 3 is kept whole with no closing delimiter |
| ProbeParser.ParseMatchLine | src/core/probe/parser.rs:196-244 | the loop that fills the version map computes `MatchLine` |
| ProbeParser.ParseNmapProbes | src/core/probe/parser.rs:42-165 | the line loop, with its `take()` of the open probe, computes `ParseProbeFile` |
| ProbeParser.Feed | src/core/probe/parser.rs:47-159 | one pass of the loop over a raw line: trimmed blank and `#` lines leave the state as it was, any other line updates it as `Step` says |
| ProbeParser.Apply | src/core/probe/parser.rs:60-159 | one dispatch on the first token updates the excludes, the probes and the open probe as `Dispatch` says |
| ProbeParser.UpdateProbe | src/core/probe/parser.rs:94-155 | a directive line updates the open probe as `Refine` says |
| ProbeParser.RefineFields | src/core/probe/parser.rs:94-155 | each directive changes only its own field; match/softmatch/ports/sslports append; totalwaitms/tcpwrappedms/rarity change only on a successful u32/u32/u8 parse, so the last valid one wins |
| ProbeParser.RefineKeepsHeader | src/core/probe/parser.rs:94-155 | no directive changes a probe's protocol, name, probe string or no-payload flag |
| ProbeParser.RunSkipsBlank | src/core/probe/parser.rs:51-53 | blank lines and `#` comments after trimming change nothing |
| ProbeParser.StepDispatches | src/core/probe/parser.rs:47-60 | any other line is dispatched on its first whitespace token |
| ProbeParser.StepExclude | src/core/probe/parser.rs:61-65 | `Exclude` appends the remaining tokens joined by single spaces, whether or not a probe is open |
| ProbeParser.StepExcludes | src/core/probe/parser.rs:61-65 | a line extends the excludes exactly by its `Exclude` argument, if any |
| ProbeParser.ExcludesInFileOrder | src/core/probe/parser.rs:61-65 | the excludes are the `Exclude` arguments in file order |
| ProbeParser.StepProbe | src/core/probe/parser.rs:66-93 | a `Probe` line first pushes the open probe; a probe is open afterwards iff the line has at least 4 tokens |
| ProbeParser.RunDiscardsWithoutProbe | src/core/probe/parser.rs:94-155 | while no probe is open, directive lines are discarded |
| ProbeParser.NoPayloadIff | src/core/probe/parser.rs:76 | `no_payload` holds iff some token equals `no-payload` |
| ProbeParser.Headers | src/core/probe/parser.rs:73-76 | one header per probe |
| ProbeParser.HeadersSnoc | src/core/probe/parser.rs:69 | pushing a probe appends its header |
| ProbeParser.StepHeaders | src/core/probe/parser.rs:66-93 | a line adds a probe header exactly when it is a `Probe` line with at least 4 tokens |
| ProbeParser.RunHeaders | src/core/probe/parser.rs:42-165 | the probes pushed plus the open one are the valid `Probe` lines, in file order |
| ProbeParser.ProbesInFileOrder | src/core/probe/parser.rs:162-165 | after the last open probe is pushed, the probes are the valid `Probe` lines in file order, and there are as many |
| ProbeMatcher.SubstituteUpTo | src/core/probe/operator.rs:263-267 | defines the template after groups 1 .. n-1; `SubstituteUpToNoDollar`, `SubstituteUpToFills`, `SubstituteUpToKeeps` and `SubstituteUpToSettled` state its properties |
| ProbeMatcher.Substitute | src/core/probe/operator.rs:259-270 | defines `process_version_field`; `SubstituteFills`, `SubstituteNoDollar`, `SubstituteKeepsLiteral` and `SubstituteTenIsOneThenZero` state what it does |
| ProbeMatcher.SubstituteUpToStep | src/core/probe/operator.rs:263-267 | one more group replaces its `$n` if it took part, and changes nothing otherwise |
| ProbeMatcher.SubstituteUpToKeeps | src/core/probe/operator.rs:263-267 | the groups below `i` leave a template whose only `$` are `$i` placeholders unchanged |
| ProbeMatcher.SubstituteUpToFills | src/core/probe/operator.rs:263-267 | after group `i`, every `$i` (1 ≤ i ≤ 9) of such a template holds the text of group `i` |
| ProbeMatcher.SubstituteUpToSettled | src/core/probe/operator.rs:263-267 | once no `$` is left, the later groups change nothing |
| ProbeMatcher.SubstituteFills | src/core/probe/operator.rs:259-270 | every `$i` (1 ≤ i ≤ 9) of a template with no other `$` becomes the text of group `i`, when that group took part and holds no `$` |
| ProbeMatcher.SubstituteTenIsOneThenZero | src/core/probe/operator.rs:259-270 | `$10` is read as `$1` followed by `0`: it becomes group 1 followed by `0` |
| ProbeMatcher.MatchResult | src/core/probe/operator.rs:220-256 | defines `match_response` as a value; `MatchResultShape` and `MatchIgnoresOtherKeys` state its result |
| ProbeMatcher.TryOutcome | src/core/probe/operator.rs:167-217 | defines `try_probe` as a value; `TryNeedsReply`, `TryHardMatchWins`, `TrySoftMatchWins` and `TryConfidence` state its precedence |
| ProbeMatcher.Relevant | src/core/probe/operator.rs:273-303 | defines `get_relevant_probes` as indices; `RelevantExactly` states which probes it selects |
| ProbeMatcher.Detect | src/core/probe/operator.rs:138-164 | defines `detect_service` as a value; `DetectNullFirst` and `DetectFirstAnswer` state its order |
| ProbeMatcher.PortOutcome | src/core/probe/operator.rs:65-106 | defines `probe_port` as a value; `PortOutcomeStates` states the state of each connect outcome |
| ProbeMatcher.Decode | src/core/probe/operator.rs:306-353 | the decoded bytes are never more than the input characters |
| ProbeMatcher.DecodeProbeString | src/core/probe/operator.rs:306-353 | the peekable-iterator loop computes `Decode` |
| ProbeMatcher.DecodeEscape | src/core/probe/operator.rs:310-350 | one step consumes at least one character and emits the bytes `Decode` gives for them |
| ProbeMatcher.DecodeAt | src/core/probe/operator.rs:310-350 | decoding from a position takes a plain character, a simple escape, a `\x` escape or an unknown escape |
| ProbeMatcher.DecodePlainPrefix | src/core/probe/operator.rs:347-349 | a backslash-free prefix maps character for byte |
| ProbeMatcher.DecodePlain | src/core/probe/operator.rs:347-349 | input without backslashes maps character for byte |
| ProbeMatcher.DecodeSimpleEscape | src/core/probe/operator.rs:311-333 | `\n \r \t \0 \\` become 0x0A 0x0D 0x09 0x00 0x5C, consuming two characters |
| ProbeMatcher.DecodeHex | src/core/probe/operator.rs:334-341 | `\xHH` with two hex digits becomes one byte of that value |
| ProbeMatcher.DecodeHexInvalid | src/core/probe/operator.rs:334-341 | `\x` with a non-hex pair consumes four characters and emits nothing |
| ProbeMatcher.DecodeHexTruncated | src/core/probe/operator.rs:334-341 | missing hex digits default to `'0'`: `\x41` is 0x41, `\x4` is 0x40, `\x` is 0x00, `\xZZ` is nothing |
| ProbeMatcher.DecodeUnknownEscape | src/core/probe/operator.rs:342-346 | an unknown escape or a lone trailing backslash emits `\` and leaves the next character to be decoded normally |
| ProbeMatcher.DecodeRequest | src/core/probe/operator.rs:311-333 | `GET / HTTP/1.0\r\n\r\n` decodes to 18 bytes ending in CR LF CR LF |
| ProbeMatcher.DecodeLineEnds | src/core/probe/operator.rs:311-333 | `\r\n\r\n` decodes to CR LF CR LF |
| ProbeMatcher.ProcessVersionField | src/core/probe/operator.rs:259-270 | the replace loop computes `Substitute`: `$i` for i = 1 to groups-1 in ascending order, only for groups that took part; `SubstituteFills` proves each `$i` (1 ≤ i ≤ 9) becomes group `i` |
| ProbeMatcher.PlaceholderHasDollar | src/core/probe/operator.rs:263-266 | a placeholder occurrence needs a `$` in the value |
| ProbeMatcher.SubstituteUpToNoDollar | src/core/probe/operator.rs:263-267 | a value without `$` survives every step |
| ProbeMatcher.SubstituteNoDollar | src/core/probe/operator.rs:259-270 | a value without `$` is returned unchanged |
| ProbeMatcher.SubstituteSshVersion | src/core/probe/operator.rs:259-270 | `$1` with group 1 = `2.0` gives `2.0` |
| ProbeMatcher.SubstituteKeepsLiteral | src/core/probe/operator.rs:259-270 | a placeholder for a group that did not take part, or that is out of range, stays literal |
| ProbeMatcher.MatchResponse | src/core/probe/operator.rs:220-256 | the field-filling loop computes `MatchResult` |
| ProbeMatcher.VisitKey | src/core/probe/operator.rs:238-250 | handling one version key sets exactly its field |
| ProbeMatcher.ExtractedVisit | src/core/probe/operator.rs:238-250 | visiting a key adds its substituted value to its own field |
| ProbeMatcher.MatchResultShape | src/core/probe/operator.rs:220-256 | none iff the pattern does not compile or does not match; otherwise the entry's service, confidence 90, and each of p,v,i,h,o,d,cpe substituted into its own field, absent ones none |
| ProbeMatcher.MatchIgnoresOtherKeys | src/core/probe/operator.rs:238-250 | keys other than p,v,i,h,o,d,cpe make no difference |
| ProbeMatcher.FirstMatching | src/core/probe/operator.rs:202-206 | the loop over hard matches returns the first match |
| ProbeMatcher.FirstMatchEarliest | src/core/probe/operator.rs:202-206 | the earliest matching entry wins |
| ProbeMatcher.FirstMatchNone | src/core/probe/operator.rs:202-206 | none iff no entry matches |
| ProbeMatcher.FirstMatchConfidence | src/core/probe/operator.rs:202-206 | a hard-match winner has confidence 90 |
| ProbeMatcher.TryProbe | src/core/probe/operator.rs:167-217 | sends the decoded probe string and computes `TryOutcome` on the exchange |
| ProbeMatcher.TryNeedsReply | src/core/probe/operator.rs:174-199 | no answer without a non-empty read; a timed-out write of a non-empty probe gives none |
| ProbeMatcher.TryHardMatchWins | src/core/probe/operator.rs:202-206 | the first matching hard match wins, at confidence 90 |
| ProbeMatcher.TrySoftMatchWins | src/core/probe/operator.rs:209-214 | soft matches count only when no hard match matches, and the first one wins at confidence 50 |
| ProbeMatcher.TryConfidence | src/core/probe/operator.rs:202-214 | an answer needs a read; its confidence is 90 iff some hard match matched, else 50 |
| ProbeMatcher.MentionsDigitsOnly | src/core/probe/operator.rs:282-284 | a ports string mentions a port iff it contains its decimal text, since `T:<port>` contains it too |
| ProbeMatcher.SelectedSnoc | src/core/probe/operator.rs:276-289 | the selection of a longer list extends that of the shorter |
| ProbeMatcher.SelectedExactly | src/core/probe/operator.rs:276-289 | the selection holds exactly the qualifying indices, ascending, each once |
| ProbeMatcher.RelevantExactly | src/core/probe/operator.rs:273-303 | only TCP probes in database order; exactly those mentioning the port; else the TCP probes named GetRequest or GenericLines |
| ProbeMatcher.GetRelevantProbes | src/core/probe/operator.rs:273-303 | the nested loops compute `Relevant` |
| ProbeMatcher.ListsPort | src/core/probe/operator.rs:283-288 | true iff some ports string mentions the port |
| ProbeMatcher.FirstNull | src/core/probe/operator.rs:145-149 | the first TCP probe named NULL, if any |
| ProbeMatcher.CandidatesInRange | src/core/probe/operator.rs:145-157 | every candidate is an index into the database |
| ProbeMatcher.DetectUnfold | src/core/probe/operator.rs:138-164 | detection tries the NULL probe, then the relevant probes |
| ProbeMatcher.DetectService | src/core/probe/operator.rs:138-164 | the loop with early return computes `Detect` |
| ProbeMatcher.FirstAnswer | src/core/probe/operator.rs:156-161 | the loop over candidates returns the first answer |
| ProbeMatcher.FirstSomeNone | src/core/probe/operator.rs:156-163 | no answer iff every try answered none |
| ProbeMatcher.FirstSomeEarliest | src/core/probe/operator.rs:156-161 | the earliest answering try wins |
| ProbeMatcher.Answers | src/core/probe/operator.rs:156-161 | the i-th try is the probe's exchange on the i-th attempt |
| ProbeMatcher.FirstServiceAnswers | src/core/probe/operator.rs:156-163 | the loop's result is the first answer of the tries |
| ProbeMatcher.DetectFirstAnswer | src/core/probe/operator.rs:138-164 | detection gives none iff every candidate answers none, and otherwise the first answer |
| ProbeMatcher.DetectNullFirst | src/core/probe/operator.rs:145-153 | when the NULL probe answers, its answer is the result |
| ProbeMatcher.GrabBanner | src/core/probe/operator.rs:356-371 | a banner iff the read succeeded, trimmed |
| ProbeMatcher.PortOutcomeStates | src/core/probe/operator.rs:65-106 | open iff connected, closed iff the connect failed, filtered iff the deadline passed; service detection only when probes are loaded, banner only when not |
| ProbeMatcher.Prober.constructor | src/core/probe/operator.rs:45-51 | no probes and a 5000 ms timeout |
| ProbeMatcher.Prober.LoadProbes | src/core/probe/operator.rs:53-58 | success stores the database; failure returns the error and keeps the state |
| ProbeMatcher.Prober.SetTimeout | src/core/probe/operator.rs:60-62 | sets the timeout and nothing else |
| ProbeMatcher.Prober.ProbePort | src/core/probe/operator.rs:65-106 | the result is `PortOutcome` for the prober's probes |
| ProbeMatcher.Prober.ProbePorts | src/core/probe/operator.rs:109-124 | one result per port, in order |
| TcpScan.ClassifyError | src/core/tcp.rs:145-167 | defines the state of a connect error, by kind and then by message; `ConnectStateTable`, `RefusedWins` and `ClassifyIgnoresCase` state it |
| TcpScan.ConnectState | src/core/tcp.rs:135-179 | defines the state of one connect outcome; `ConnectStateTable` states it for every outcome |
| TcpScan.Select | src/core/tcp.rs:190-199 | defines the results of one state in order; `SelectSnoc`, `SelectConcat` and `SelectMembers` state its properties |
| TcpScan.Insert | src/core/tcp.rs:311-318 | defines successive insertion into the port map; `InsertConcat`, `InsertKeys` and `InsertUniform` state its properties |
| TcpScan.ScanOf | src/core/tcp.rs:89-208 | defines `syn_scan` as a value; `SynScan` is proved against it and `ScanEmpty` states the empty case |
| TcpScan.PortsMapOf | src/core/tcp.rs:307-318 | defines the port map of one target; `PortsMapKeys` and `PortsMapPrecedence` state its keys and which state wins |
| TcpScan.Resolve | src/core/tcp.rs:245-266 | defines the resolution loop; `ResolveErrPersists`, `ResolvedTargets`, `ResolveOrigin`, `ResolveComplete` and `ResolveSkipsName` state its error and its targets |
| TcpScan.ExecOutcome | src/core/tcp.rs:224-318 | defines `exec` up to display; `Exec` is proved against it and `ExecKeys` states the keys of each map |
| TcpScan.ConnectStateTable | src/core/tcp.rs:130-180 | open iff connected; filtered iff deadline, a timeout/permission/unreachable kind, or another kind whose message says timeout/unreachable/filtered but not refused; otherwise closed |
| TcpScan.RefusedWins | src/core/tcp.rs:155-157 | for another error kind, "refused" is checked first and gives closed |
| TcpScan.ClassifyIgnoresCase | src/core/tcp.rs:155 | the message is compared lower-cased |
| TcpScan.Results | src/core/tcp.rs:122-180 | one result per port, in port order, with the classified state |
| TcpScan.ConnectAll | src/core/tcp.rs:122-184 | the spawn loop computes `Results` |
| TcpScan.SelectSnoc | src/core/tcp.rs:190-199 | a bucket of a longer list extends that of the shorter |
| TcpScan.Bucket | src/core/tcp.rs:186-207 | the bucketing loop computes `Buckets` |
| TcpScan.SelectConcat | src/core/tcp.rs:190-199 | each bucket keeps the result order |
| TcpScan.BucketsAppend | src/core/tcp.rs:192-196 | one push keeps the buckets a partition of the results so far |
| TcpScan.BucketsPartition | src/core/tcp.rs:186-199 | the buckets are a partition of the results (as multisets), and their sizes sum to the number of results |
| TcpScan.SelectMembers | src/core/tcp.rs:192-196 | a result is in a bucket iff its state is that bucket's |
| TcpScan.SynScan | src/core/tcp.rs:89-208 | the scan of one target computes `ScanOf` |
| TcpScan.ScanEmpty | src/core/tcp.rs:102-108 | an empty port list gives three empty buckets |
| TcpScan.PortsMap | src/core/tcp.rs:307-318 | the insert loop computes `PortsMapOf` |
| TcpScan.InsertConcat | src/core/tcp.rs:311-318 | inserting two lists is inserting one after the other |
| TcpScan.InsertKeys | src/core/tcp.rs:316-318 | inserting adds exactly the result ports as keys and keeps the other entries |
| TcpScan.InsertUniform | src/core/tcp.rs:316-318 | inserting results of one state maps their ports to it |
| TcpScan.ResultsPorts | src/core/tcp.rs:122-124 | the result ports are the decimal texts of the scanned ports |
| TcpScan.SamePorts | src/core/tcp.rs:311-314 | rearranged results have the same ports |
| TcpScan.PortsMapKeys | src/core/tcp.rs:307-318 | the keys of the port map are exactly the scanned port strings |
| TcpScan.PortsMapPrecedence | src/core/tcp.rs:311-318 | for a port listed twice, filtered beats closed beats open, as the chained order inserts them |
| TcpScan.ResolveTargets | src/core/tcp.rs:245-266 | the resolution loop computes `Resolve` |
| TcpScan.ResolveErrPersists | src/core/tcp.rs:253 | a failed lookup ends the resolution with its error |
| TcpScan.ResolvedTargets | src/core/tcp.rs:245-266 | at most one address per target, all valid, and the mapping's keys are the targets |
| TcpScan.ResolveOrigin | src/core/tcp.rs:247-263 | every mapped target is the address of some original (itself if valid, else the trimmed first `", "` piece of its lookup) and maps back to that original's name |
| TcpScan.ResolveLookedUp | src/core/tcp.rs:252 | a successful resolution looked every name up without error |
| TcpScan.ResolveComplete | src/core/tcp.rs:247-263 | a successful resolution keeps the address of every original that has one |
| TcpScan.ResolveSkipsName | src/core/tcp.rs:256-262 | a name whose trimmed first piece is not a valid address adds no target and no mapping |
| TcpScan.ResolveAddresses | src/core/tcp.rs:249-252 | targets that are addresses are kept as they are and map to themselves |
| TcpScan.Reports | src/core/tcp.rs:303-318 | one report per target, in order |
| TcpScan.ScanTarget | src/core/tcp.rs:279-318 | one target's scan and port map |
| TcpScan.ScanTargets | src/core/tcp.rs:276-318 | the loop over targets computes `Reports` |
| TcpScan.Exec | src/core/tcp.rs:224-364 | `exec` computes `ExecOutcome`: resolution, then one report per target |
| TcpScan.ExecKeys | src/core/tcp.rs:307-318 | every reported port map has exactly the scanned port strings as keys |
| UdpScan.ProbeData | src/core/udp.rs:129-180 | defines the datagram of each port; `ProbeDataTable` and the `Shape` lemmas state the payloads |
| UdpScan.Scanned | src/core/udp.rs:62-86 | defines the map of one target; `ScannedKeys` and `ScannedLastWins` state its keys and values |
| UdpScan.TargetAddress | src/core/udp.rs:187-195 | defines the address of one target: itself if valid, else the first answer of its lookup; `CombinedOkIff` proves the scan succeeds iff every target has an address |
| UdpScan.Combined | src/core/udp.rs:182-206 | defines `udp_scan` as a value; `CombinedErrPersists`, `CombinedLastTarget` and `CombinedKeys` state its properties |
| UdpScan.ToPortsMap | src/core/udp.rs:231-238 | defines the conversion to output states; `ConvertResults` is proved against it |
| UdpScan.ExecOutcome | src/core/udp.rs:209-238 | defines `exec` up to display; `Exec` is proved against it and `ExecEmpty` and `ExecReport` state its cases |
| UdpScan.Zeros | src/core/udp.rs:166-173 | n zero bytes |
| UdpScan.ProbeDataTable | src/core/udp.rs:129-180 | DNS payload iff port 53, SNMP iff 161, NTP iff 123, empty for every other port |
| UdpScan.DnsQueryShape | src/core/udp.rs:131-147 | a 28-byte query (RFC 1035 section 4.1): ID 0x1234, flags 0x0100, QDCOUNT 1, other counts 0, QNAME google.com with correct label lengths, QTYPE A, QCLASS IN |
| UdpScan.SnmpGetRequestShape | src/core/udp.rs:148-163 | 40 bytes whose every BER length byte (ITU-T X.690 section 8.1.3) equals the size of its contents |
| UdpScan.SnmpGetRequestFields | src/core/udp.rs:148-163 | SNMPv1 (RFC 1157) GetRequest, community `public`, OID 1.3.6.1.2.1.1.1.0 |
| UdpScan.NtpRequestShape | src/core/udp.rs:164-174 | 48 bytes; first byte LI 0, VN 3, mode 3 (RFC 5905 section 7.3); the rest zero |
| UdpScan.ScanUdpPort | src/core/udp.rs:88-127 | open iff bind, connect and send succeed and the receive does not fail; a receive timeout counts as open |
| UdpScan.FireAndForget | src/core/udp.rs:62-86 | the loop computes `Scanned` |
| UdpScan.ScannedKeys | src/core/udp.rs:77-81 | the map's keys are exactly the given ports, duplicates collapsed |
| UdpScan.ScannedLastWins | src/core/udp.rs:77-81 | a port's entry is the state of its last probe |
| UdpScan.Merge | src/core/udp.rs:201-203 | merging lets the new target's entries replace the old |
| UdpScan.UdpScanTargets | src/core/udp.rs:182-207 | the target loop computes `Combined` |
| UdpScan.CombinedErrPersists | src/core/udp.rs:187-195 | the first target whose address fails ends the scan with its error |
| UdpScan.CombinedOkIff | src/core/udp.rs:185-206 | the scan succeeds iff every target has an address |
| UdpScan.CombinedLastTarget | src/core/udp.rs:185-204 | keyed by port only, the last target's states overwrite the earlier ones; a name is probed at the first `", "`-separated address |
| UdpScan.CombinedKeys | src/core/udp.rs:185-206 | the combined keys are the given ports, or none without targets |
| UdpScan.NatToStringInjective | src/core/udp.rs:237 | distinct ports have distinct strings, so the conversion loses no entry |
| UdpScan.ConvertResults | src/core/udp.rs:231-238 | the conversion loop computes `ToPortsMap` |
| UdpScan.Exec | src/core/udp.rs:209-246 | `exec` computes `ExecOutcome` |
| UdpScan.ExecEmpty | src/core/udp.rs:216-226 | nothing is scanned iff the port list is empty; with no targets there are no results |
| UdpScan.ExecReport | src/core/udp.rs:222-238 | the reported map is the last target's scan of the parsed ports, keyed by port string, never filtered |
| ScannerTcp.Buckets | src/scanner/tcp.rs:153-165 | defines the three buckets of port strings; `BucketsSnoc`, `BucketsPartition` and `BucketsKeepOrder` state their properties |
| ScannerTcp.ScanOf | src/scanner/tcp.rs:74-172 | defines `syn_scan` as a value; `SynScan` is proved against it and `ScanSizes` states the bucket sizes |
| ScannerTcp.InsertAll | src/scanner/tcp.rs:257-268 | defines successive insertion of ports with one state; `InsertAllEntries` states its entries |
| ScannerTcp.DisplayMap | src/scanner/tcp.rs:254-269 | defines the shown map; `DisplayQuiet` and `DisplayVerbose` state it for each mode |
| ScannerTcp.ResolveAll | src/scanner/tcp.rs:204-218 | defines the resolution loop; `ResolveErrPersists`, `ValidPiecesKept` and `ValidPieceOrigin` state its properties |
| ScannerTcp.ExecOutcome | src/scanner/tcp.rs:188-295 | defines `exec` up to printing; `Exec` is proved against it and `ExecQuiet` states the quiet mode |
| ScannerTcp.Names | src/scanner/tcp.rs:160-162 | the buckets hold the port strings of the results |
| ScannerTcp.NamesConcat | src/scanner/tcp.rs:157-165 | the port strings of two lists are concatenated |
| ScannerTcp.BucketsSnoc | src/scanner/tcp.rs:157-165 | a bucket of a longer list extends that of the shorter |
| ScannerTcp.Bucket | src/scanner/tcp.rs:153-171 | the bucketing loop computes `Buckets` |
| ScannerTcp.NamesAppend | src/scanner/tcp.rs:159-163 | one push keeps the buckets a partition |
| ScannerTcp.PartitionStep | src/scanner/tcp.rs:157-165 | one more result keeps the buckets a partition |
| ScannerTcp.BucketsPartition | src/scanner/tcp.rs:153-165 | each port string is in exactly one bucket (multiset partition) |
| ScannerTcp.BucketsKeepOrder | src/scanner/tcp.rs:153-165 | each bucket keeps port order and holds exactly the ports of its state |
| ScannerTcp.SynScan | src/scanner/tcp.rs:74-172 | the scan of one target computes `ScanOf` |
| ScannerTcp.ScanSizes | src/scanner/tcp.rs:79-87 | an empty port list gives an empty result; otherwise the buckets partition the scanned port strings |
| ScannerTcp.InsertPorts | src/scanner/tcp.rs:257-268 | one insert loop computes `InsertAll` |
| ScannerTcp.InsertAllEntries | src/scanner/tcp.rs:257-268 | inserting maps each listed port to the state and keeps the rest |
| ScannerTcp.BuildDisplayMap | src/scanner/tcp.rs:254-269 | the map-building code computes `DisplayMap` |
| ScannerTcp.DisplayQuiet | src/scanner/tcp.rs:257-259 | without verbose, only the open ports are shown, all as open |
| ScannerTcp.DisplayVerbose | src/scanner/tcp.rs:261-269 | verbose adds closed and filtered ports; filtered beats closed beats open |
| ScannerTcp.Show | src/scanner/tcp.rs:272-288 | a table or a JSON file iff the map is non-empty; JSON or silence iff a JSON file is configured |
| ScannerTcp.KeepValid | src/scanner/tcp.rs:211-216 | every trimmed valid piece is appended, in order |
| ScannerTcp.ResolveTargets | src/scanner/tcp.rs:204-218 | the resolution loop computes `ResolveAll` |
| ScannerTcp.ResolveErrPersists | src/scanner/tcp.rs:209 | a failed lookup ends the resolution with its error |
| ScannerTcp.ValidPiecesKept | src/scanner/tcp.rs:211-216 | every resolved address that passes `valid_ip` is kept, not just the first, and only those |
| ScannerTcp.ValidPieceOrigin | src/scanner/tcp.rs:211-216 | each kept address is a trimmed piece of the answer |
| ScannerTcp.ResolveAllAddresses | src/scanner/tcp.rs:204-218 | resolution succeeds iff every lookup does; every address kept is valid |
| ScannerTcp.TargetPermits | src/scanner/tcp.rs:228 | the target semaphore holds min(threads, number of targets) permits |
| ScannerTcp.Scans | src/scanner/tcp.rs:230-244 | one scan per address |
| ScannerTcp.Displays | src/scanner/tcp.rs:249-295 | one display per address |
| ScannerTcp.ScanAndShow | src/scanner/tcp.rs:252-288 | one address's display |
| ScannerTcp.ShowAll | src/scanner/tcp.rs:249-295 | the display loop computes `Displays` |
| ScannerTcp.Exec | src/scanner/tcp.rs:188-298 | `exec` computes `ExecOutcome` |
| ScannerTcp.ExecQuiet | src/scanner/tcp.rs:257-282 | without verbose, every table shows only open ports |
| Output.ServiceForPort | src/output.rs:23-73 | defines the port→service table; `ServiceUnlisted`, `ServiceListed` and `ServiceMatchesText` state it |
| Output.Rows | src/output.rs:89-107 | defines one table row per entry, in order; `TableRows` states what each row holds |
| Output.SummaryLine | src/output.rs:114-131 | defines the summary line; `CountsSum` proves that its three counts add up to the number of ports |
| Output.ScriptLines | src/output.rs:190-213 | defines the lines of `out_script_result`; `ScriptNoOutput`, `ScriptData` and `ScriptFailure` state its branches |
| Output.ServiceUnlisted | src/output.rs:23-73 | any string not in the table maps to `unknown` |
| Output.ServiceListed | src/output.rs:26-70 | for example `22` → ssh, `443` → https, `10000` → webmin |
| Output.ServiceMatchesText | src/output.rs:24-71 | the lookup compares text, so `022`, `+22` and ` 22` are unknown |
| Output.StateString | src/output.rs:93-97 | the state string is open, closed or filtered, matching the state |
| Output.StateStringInjective | src/output.rs:93-97 | distinct states have distinct strings |
| Output.SortKey | src/output.rs:84-85 | the sort key is the `u16` parse of the port, 0 when it does not parse |
| Output.SortKeyOfNumber | src/output.rs:84-85 | a port string produced from a number sorts by that number |
| Output.Enumerate | src/output.rs:82 | collecting a map lists each entry once |
| Output.ListsPermutation | src/output.rs:83-87 | a rearranged listing still lists the map |
| Output.InsertSorted | src/output.rs:83-87 | inserting at the right place keeps the order |
| Output.InsertBy | src/output.rs:83-87 | one insertion keeps the order and adds the element |
| Output.SortBy | src/output.rs:83-87 | the sort yields an ascending permutation |
| Output.CountsSum | src/output.rs:115-126 | the open, closed and filtered counts sum to the number of entries |
| Output.OutResults | src/output.rs:75-132 | an empty map gives only the no-ports line; otherwise the heading, one row per entry sorted by port, and the summary |
| Output.TableRows | src/output.rs:89-107 | one row per entry with its state string and service, ascending by port |
| Output.DataLines | src/output.rs:198-200 | one line per data entry |
| Output.DataLinesList | src/output.rs:198-200 | one data line per key of the data, at the index of that key's pair and showing its value, with no key twice |
| Output.ListsDistinct | src/output.rs:198-200 | a listing of a map never lists a key twice |
| Output.ListedKeysBound | src/output.rs:198-200 | a sequence of pairs lists at most as many keys as it has pairs |
| Output.OutScriptResult | src/output.rs:190-213 | the printed lines are `ScriptLines` for some listing of the data |
| Output.ScriptNoOutput | src/output.rs:203-205 | on success the no-output line appears iff output and data are both empty |
| Output.ScriptData | src/output.rs:191-201 | the output line when output is non-empty, then `Data:`, then exactly the data lines of the listing (one per key, by `DataLinesList`) |
| Output.ScriptFailure | src/output.rs:206-212 | failure prints one line, the unknown-error one iff there is no error |

## Left out

- Sockets and timing are inputs. This covers `TcpStream::connect`, `UdpSocket`, the reads and writes in `try_probe` and `grab_banner`, and `tokio::time::timeout`. The model sees only their outcomes, so the configured timeout values are never consulted.
- Concurrency is not modelled: `tokio::spawn`, `JoinHandle` awaiting and the `Semaphore` pools. Results are collected in spawn order, as the source does. A task that panics or fails to join, whose result the source skips, is not modelled.
- Progress bars and all `println!`/`eprintln!` text, apart from the lines `out_results` and `out_script_result` build.
- The regex engine (`Regex::new`, `captures`) is a foreign library. It is the abstract `RegexEngine` input.
- `String::from_utf8_lossy` on the probe reply is not modelled. The reply is an input string.
- Text.ToLower: lower-cases ASCII letters only, where Rust's `to_lowercase` also maps other letters. This does not change a search for `refused`, `timeout`, `unreachable` or `filtered`. The only non-ASCII characters that lower-case to ASCII are the Kelvin sign, which gives `k`, and `İ`, which gives `i` followed by a combining dot.
- Serde JSON loading and saving are not modelled: `load_probes` reads the database file, and the parser writes one. `Prober.LoadProbes` takes the load's result as input.
- The parser reads its file as `lines()`. The model starts from the lines.
- `out_json` and `out_service_detection` in `src/output.rs` only serialise or print. They are not modelled.
- `out_results_with_ports_info`, called by the TCP and UDP `exec`, is not part of this model. The model ends at the port map handed to it.
- `Prober::exec` only prints which mode is active. It is not modelled.
- `execute_lua_scripts` in `src/core/tcp.rs` and the Lua runner in `src/core/lua.rs` are not modelled: they embed a foreign interpreter. `ScriptResult` is modelled only as the input of `out_script_result`.
- `src/args/*` is not modelled: configuration and command-line parsing. Its values (targets, ports, verbosity, threads, JSON file) are parameters.
- DNS lookup in `src/dns.rs` is an input function. Its answer is the addresses joined by `", "`.
- `valid_ip` in `src/utils.rs` is the predicate parameter `validIp`.
- `src/main.rs` and the `mod.rs` files only compose the scanners. They are not modelled.
- ProbeMatcher.Prober.SetTimeout: the `u64` timeout is a `nat` bounded by `U64Max`. Nothing in the model reads it.
- ProbeParser.MatchLine: like the source, it splits the whole line on whitespace. A pattern containing a space is therefore cut at the space, and the rest becomes version fields. The model keeps this behaviour and states nothing stronger.
- Text.ToUpper: upper-cases ASCII letters only, where Rust's `to_uppercase` also maps other letters and can lengthen the string (`ß` gives `SS`). It only formats the protocol name in headings, and the one caller in the modelled code passes `"TCP"` (src/scanner/tcp.rs:282).
- ScannerTcp.TargetPermits: no other member uses it, because the semaphores are not modelled. It records that `threads = 0` gives zero permits to the target semaphore (src/scanner/tcp.rs:228) and to the port semaphores (src/scanner/tcp.rs:90, src/core/tcp.rs:276). From the code, such a scan would wait forever for a permit.
- Output.SortBy: it does not state that the sort is stable. The entries come from a hash map, so their starting order is unspecified anyway.
- Output.Enumerate: the order in which a `HashMap` is iterated is unspecified. The model states only that each entry is listed once.
