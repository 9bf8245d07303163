/**
 * The port specification parser (`parse_ports`): a comma-separated list of
 * tokens, each a single `u16` or an inclusive range `start-end` of two of
 * them. The three copies in src/core/tcp.rs, src/core/udp.rs and
 * src/scanner/tcp.rs have the same text; this module is the one definition
 * they share.
 */
module PortSpec {
  import opened Wrappers
  import opened Text

  type Port = n: nat | n <= 65535

  /** `str::parse::<u16>()`. */
  function ParsePort(s: string): (r: Option<Port>)
    ensures r.Some? <==> ParseUnsigned(s, U16Max).Some?
    ensures r.Some? ==> r.value == ParseUnsigned(s, U16Max).value
  {
    match ParseUnsigned(s, U16Max)
    case None => None
    case Some(v) => Some(v as Port)
  }

  /** `lo..=hi`: the ports from `lo` to `hi` ascending, empty when `lo > hi`. */
  function Range(lo: nat, hi: Port): (r: seq<Port>)
    ensures |r| == if lo <= hi then hi - lo + 1 else 0
    ensures forall k :: 0 <= k < |r| ==> r[k] == lo + k
    decreases hi + 1 - lo
  {
    if lo > hi then [] else [lo as Port] + Range(lo + 1, hi)
  }

  /** The ports one comma-separated token stands for. The token is trimmed;
      the two halves of a range are not trimmed again. */
  function TokenPorts(part: string): seq<Port> {
    var t := Trim(part);
    if '-' in t then
      var bounds := Split(t, '-');
      if |bounds| == 2 && ParsePort(bounds[0]).Some? && ParsePort(bounds[1]).Some?
      then Range(ParsePort(bounds[0]).value, ParsePort(bounds[1]).value)
      else []
    else
      match ParsePort(t)
      case Some(p) => [p]
      case None => []
  }

  /** The expansions `f` gives the tokens, concatenated in textual order. */
  function FlatMap(f: string -> seq<Port>, parts: seq<string>): seq<Port> {
    if parts == [] then []
    else FlatMap(f, parts[..|parts| - 1]) + f(parts[|parts| - 1])
  }

  lemma FlatMapSnoc(f: string -> seq<Port>, parts: seq<string>, i: nat)
    requires i < |parts|
    ensures FlatMap(f, parts[..i + 1]) == FlatMap(f, parts[..i]) + f(parts[i])
  {
    assert parts[..i + 1][..i] == parts[..i];
  }

  /** The ports a specification string stands for. */
  function Expand(spec: string): seq<Port> {
    FlatMap(TokenPorts, Split(spec, ','))
  }

  /** `parse_ports`: expands every token in turn, appending its ports. */
  method ParsePorts(spec: string) returns (ports: seq<Port>)
    ensures ports == Expand(spec)
  {
    var parts := Split(spec, ',');
    ports := AppendTokens(parts);
  }

  /** The loop of `parse_ports` over the comma-separated tokens. */
  method AppendTokens(parts: seq<string>) returns (ports: seq<Port>)
    ensures ports == FlatMap(TokenPorts, parts)
  {
    ports := [];
    var i := 0;
    while i < |parts|
      invariant 0 <= i <= |parts|
      invariant ports == FlatMap(TokenPorts, parts[..i])
    {
      FlatMapSnoc(TokenPorts, parts, i);
      ports := AppendToken(ports, parts[i]);
      i := i + 1;
    }
    assert parts[..i] == parts;
  }

  /** The body of the loop of `parse_ports` for one token: a range pushes its
      ports one by one, a single port is pushed, anything else is skipped. */
  method AppendToken(before: seq<Port>, token: string) returns (ports: seq<Port>)
    ensures ports == before + TokenPorts(token)
  {
    ports := before;
    var part := Trim(token);
    if '-' in part {
      var rangeParts := Split(part, '-');
      if |rangeParts| == 2 {
        var start, end := ParsePort(rangeParts[0]), ParsePort(rangeParts[1]);
        if start.Some? && end.Some? {
          ports := PushRange(ports, start.value, end.value);
        }
      }
    } else {
      var port := ParsePort(part);
      if port.Some? {
        ports := ports + [port.value];
      }
    }
  }

  /** `for port in start..=end { ports.push(port) }`. */
  method PushRange(before: seq<Port>, lo: Port, hi: Port) returns (ports: seq<Port>)
    ensures ports == before + Range(lo, hi)
  {
    ports := before;
    var port: nat := lo;
    while port <= hi
      invariant lo <= port && (port <= hi + 1 || port == lo)
      invariant ports == before + Range(lo, hi)[..port - lo]
    {
      ports := ports + [port as Port];
      assert Range(lo, hi)[..port + 1 - lo] == Range(lo, hi)[..port - lo] + [port as Port];
      port := port + 1;
    }
    assert Range(lo, hi)[..port - lo] == Range(lo, hi);
  }

  // ---------------------------------------------------------------------
  // Lemmas

  lemma {:induction false} FlatMapConcat(f: string -> seq<Port>, xs: seq<string>, ys: seq<string>)
    ensures FlatMap(f, xs + ys) == FlatMap(f, xs) + FlatMap(f, ys)
    decreases |ys|
  {
    if ys == [] {
      assert xs + ys == xs;
    } else {
      var zs := ys[..|ys| - 1];
      assert (xs + ys)[..|xs + ys| - 1] == xs + zs;
      FlatMapConcat(f, xs, zs);
    }
  }

  /** The expansion of `a,b` is the expansion of `a` followed by that of `b`:
      tokens expand in textual order and nothing is merged or deduplicated. */
  lemma ExpandConcat(a: string, b: string)
    ensures Expand(a + "," + b) == Expand(a) + Expand(b)
  {
    assert a + "," + b == a + [','] + b;
    SplitConcat(a, ',', b);
    FlatMapConcat(TokenPorts, Split(a, ','), Split(b, ','));
  }

  /** A specification with no comma is one token. */
  lemma ExpandToken(t: string)
    requires ',' !in t
    ensures Expand(t) == TokenPorts(t)
  {
    SplitAbsent(t, ',');
    assert [t][..0] == [];
    assert FlatMap(TokenPorts, [t]) == FlatMap(TokenPorts, []) + TokenPorts(t);
  }

  /** Decimal digits are neither whitespace nor a separator. */
  lemma DigitsAreNotSeparators(s: string)
    requires AllDigits(s)
    ensures forall k :: 0 <= k < |s| ==> !IsWhitespace(s[k]) && s[k] != ',' && s[k] != '-'
  {
  }

  /** A single port expands to itself: `"443"` gives `[443]`. */
  lemma ExpandSingle(p: Port)
    ensures Expand(NatToString(p)) == [p]
  {
    var s := NatToString(p);
    DigitsAreNotSeparators(s);
    assert ',' !in s && '-' !in s;
    ExpandToken(s);
    ParseNatToString(p, U16Max);
  }

  /** `a-b` written in digits is one token, untouched by trimming, that
      splits on `-` into its two halves. */
  lemma RangeTokenShape(sa: string, sb: string)
    requires AllDigits(sa) && AllDigits(sb)
    ensures Trim(sa + "-" + sb) == sa + "-" + sb
    ensures ',' !in sa + "-" + sb && '-' in sa + "-" + sb
    ensures Split(sa + "-" + sb, '-') == [sa, sb]
  {
    var t := sa + "-" + sb;
    DigitsAreNotSeparators(sa);
    DigitsAreNotSeparators(sb);
    assert forall k :: 0 <= k < |t| ==> !IsWhitespace(t[k]) && t[k] != ',' by {
      forall k | 0 <= k < |t| ensures !IsWhitespace(t[k]) && t[k] != ',' {
        if k < |sa| { assert t[k] == sa[k]; }
        else if k > |sa| { assert t[k] == sb[k - |sa| - 1]; }
      }
    }
    assert t[|sa|] == '-';
    assert t == sa + ['-'] + sb;
    SplitConcat(sa, '-', sb);
    SplitAbsent(sa, '-');
    SplitAbsent(sb, '-');
  }

  /** `a-b` expands to the `b - a + 1` ports from `a` to `b` ascending, and to
      nothing when `a > b`. */
  lemma ExpandRange(a: Port, b: Port)
    ensures Expand(NatToString(a) + "-" + NatToString(b)) == Range(a, b)
    ensures a <= b ==> |Expand(NatToString(a) + "-" + NatToString(b))| == b - a + 1
    ensures a > b ==> Expand(NatToString(a) + "-" + NatToString(b)) == []
  {
    var sa, sb := NatToString(a), NatToString(b);
    RangeTokenShape(sa, sb);
    ExpandToken(sa + "-" + sb);
    ParseNatToString(a, U16Max);
    ParseNatToString(b, U16Max);
  }

  /** The empty specification expands to no port. */
  lemma ExpandEmpty()
    ensures Expand("") == []
  {
    assert Split("", ',') == [""];
    assert [""][..0] == [];
  }

  /** A token that is not a range and does not parse as `u16` (non-numeric,
      out of range, signed, or empty) contributes nothing. */
  lemma ExpandDropsNonNumeric(t: string)
    requires ',' !in t && '-' !in Trim(t) && ParsePort(Trim(t)).None?
    ensures Expand(t) == []
  {
    ExpandToken(t);
  }

  /** A token with more than one `-` contributes nothing. */
  lemma ExpandDropsManyDashes(t: string)
    requires ',' !in t && |Split(Trim(t), '-')| > 2
    ensures Expand(t) == []
  {
    ExpandToken(t);
    var bounds := Split(Trim(t), '-');
    assert |bounds| > 1;
    if '-' !in Trim(t) {
      SplitAbsent(Trim(t), '-');
    }
  }

  /** Every port of the expansion comes from one of the tokens. */
  lemma {:induction false} FlatMapMember(f: string -> seq<Port>, parts: seq<string>, p: Port)
    requires p in FlatMap(f, parts)
    ensures exists k :: 0 <= k < |parts| && p in f(parts[k])
    decreases |parts|
  {
    var init := parts[..|parts| - 1];
    if p in FlatMap(f, init) {
      FlatMapMember(f, init, p);
      var k :| 0 <= k < |init| && p in f(init[k]);
      assert parts[k] == init[k];
    } else {
      assert p in f(parts[|parts| - 1]);
    }
  }
}
