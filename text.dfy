/**
 * The string operations of Rust's `str` that the scanner relies on, at the
 * level of Unicode scalar values (Dafny `char`): `trim`, `split_whitespace`,
 * `split`, `join`, `contains`, `find`/`rfind` of a char, `replace`,
 * `to_lowercase`/`to_uppercase` (ASCII letters only), `to_string` of an
 * unsigned integer and `from_str` of `u8`/`u16`/`u32`.
 */
module Text {
  import opened Wrappers

  /** `char::is_whitespace`: the Unicode White_Space property. */
  predicate IsWhitespace(c: char) {
    c == ' ' || ('\t' <= c <= '\r') || c == '\U{0085}' || c == '\U{00A0}' ||
    c == '\U{1680}' || ('\U{2000}' <= c <= '\U{200A}') || c == '\U{2028}' ||
    c == '\U{2029}' || c == '\U{202F}' || c == '\U{205F}' || c == '\U{3000}'
  }

  /** `str::trim_start`: drops the leading whitespace. */
  function TrimStart(s: string): (r: string)
    ensures |r| <= |s| && r == s[|s| - |r|..]
    ensures forall k :: 0 <= k < |s| - |r| ==> IsWhitespace(s[k])
    ensures r != [] ==> !IsWhitespace(r[0])
  {
    if |s| > 0 && IsWhitespace(s[0]) then TrimStart(s[1..]) else s
  }

  /** `str::trim_end`: drops the trailing whitespace. */
  function TrimEnd(s: string): (r: string)
    ensures |r| <= |s| && r == s[..|r|]
    ensures forall k :: |r| <= k < |s| ==> IsWhitespace(s[k])
    ensures r != [] ==> !IsWhitespace(r[|r| - 1])
  {
    if |s| > 0 && IsWhitespace(s[|s| - 1]) then TrimEnd(s[..|s| - 1]) else s
  }

  /** `str::trim`: drops whitespace at both ends. */
  function Trim(s: string): (r: string)
    ensures |r| <= |s|
    ensures r != [] ==> !IsWhitespace(r[0]) && !IsWhitespace(r[|r| - 1])
    ensures (forall k :: 0 <= k < |s| ==> !IsWhitespace(s[k])) ==> r == s
  {
    TrimEnd(TrimStart(s))
  }

  /** `r` is `s[i..j]`, and everything outside that slice is whitespace. */
  predicate TrimmedSlice(s: string, r: string, i: int, j: int) {
    0 <= i <= j <= |s| && r == s[i..j]
    && (forall k :: 0 <= k < i ==> IsWhitespace(s[k]))
    && (forall k :: j <= k < |s| ==> IsWhitespace(s[k]))
  }

  /** `str::trim` returns a slice of its input: whitespace is dropped from
      both ends and nothing in between changes. */
  lemma TrimIsSlice(s: string)
    ensures exists i, j :: TrimmedSlice(s, Trim(s), i, j)
  {
    var t := TrimStart(s);
    var u := TrimEnd(t);
    var i := |s| - |t|;
    var j := i + |u|;
    PrefixOfSuffix(s, t, u, i);
    assert Trim(s) == u;
    assert TrimmedSlice(s, Trim(s), i, j);
  }

  /** A prefix `u` of the suffix `t` of `s` that starts at `i` is a slice of `s`. */
  lemma PrefixOfSuffix<T>(s: seq<T>, t: seq<T>, u: seq<T>, i: nat)
    requires i <= |s| && t == s[i..] && |u| <= |t| && u == t[..|u|]
    ensures u == s[i..i + |u|]
    ensures forall k :: i + |u| <= k < |s| ==> s[k] == t[k - i]
  {
  }

  /** A token of `split_whitespace`: non-empty and free of whitespace. */
  predicate IsWord(w: string) {
    |w| > 0 && forall k :: 0 <= k < |w| ==> !IsWhitespace(w[k])
  }

  /** Length of the leading run of non-whitespace characters. */
  function WordEnd(s: string): (n: nat)
    ensures n <= |s|
    ensures forall k :: 0 <= k < n ==> !IsWhitespace(s[k])
    ensures n < |s| ==> IsWhitespace(s[n])
    ensures |s| > 0 && !IsWhitespace(s[0]) ==> n > 0
  {
    if |s| == 0 || IsWhitespace(s[0]) then 0 else 1 + WordEnd(s[1..])
  }

  /** `str::split_whitespace`: the maximal runs of non-whitespace characters. */
  function SplitWhitespace(s: string): (r: seq<string>)
    decreases |s|
  {
    var t := TrimStart(s);
    if t == [] then []
    else
      var n := WordEnd(t);
      [t[..n]] + SplitWhitespace(t[n..])
  }

  /** `[String]::join(sep)`. */
  function Join(parts: seq<string>, sep: string): string {
    if |parts| == 0 then ""
    else if |parts| == 1 then parts[0]
    else parts[0] + sep + Join(parts[1..], sep)
  }

  /** `str::split(pat)`: the pieces between the non-overlapping occurrences
      of `pat`, found from left to right. */
  function SplitOn(s: string, pat: string): (r: seq<string>)
    requires |pat| > 0
    ensures |r| >= 1
    decreases |s|
  {
    if |s| < |pat| then [s]
    else if s[..|pat|] == pat then [""] + SplitOn(s[|pat|..], pat)
    else
      var rest := SplitOn(s[1..], pat);
      [[s[0]] + rest[0]] + rest[1..]
  }

  /** `str::split(c)` for a single character. */
  function Split(s: string, c: char): (r: seq<string>)
    ensures |r| >= 1
  {
    SplitOn(s, [c])
  }

  /** `str::contains(sub)`. */
  predicate Contains(s: string, sub: string)
    decreases |s|
  {
    (|sub| <= |s| && s[..|sub|] == sub) || (|s| > 0 && Contains(s[1..], sub))
  }

  /** `str::starts_with(prefix)`. */
  predicate StartsWith(s: string, prefix: string) {
    |prefix| <= |s| && s[..|prefix|] == prefix
  }

  /** `str::find(c)`: the index of the first occurrence of `c`. */
  function Find(s: string, c: char): (r: Option<nat>)
    ensures r.Some? ==> r.value < |s| && s[r.value] == c && c !in s[..r.value]
    ensures r.None? ==> c !in s
  {
    if |s| == 0 then None
    else if s[0] == c then Some(0)
    else match Find(s[1..], c)
      case None => None
      case Some(i) => Some(i + 1)
  }

  /** `str::rfind(c)`: the index of the last occurrence of `c`. */
  function RFind(s: string, c: char): (r: Option<nat>)
    ensures r.Some? ==> r.value < |s| && s[r.value] == c && c !in s[r.value + 1..]
    ensures r.None? ==> c !in s
  {
    if |s| == 0 then None
    else if s[|s| - 1] == c then Some(|s| - 1)
    else RFind(s[..|s| - 1], c)
  }

  /** `str::replace(pat, rep)`: every non-overlapping occurrence of `pat`,
      found from left to right, is replaced by `rep`. */
  function ReplaceAll(s: string, pat: string, rep: string): string
    requires |pat| > 0
    decreases |s|
  {
    if |s| < |pat| then s
    else if s[..|pat|] == pat then rep + ReplaceAll(s[|pat|..], pat, rep)
    else [s[0]] + ReplaceAll(s[1..], pat, rep)
  }

  function LowerChar(c: char): char {
    if 'A' <= c <= 'Z' then (c as int + 32) as char else c
  }

  function UpperChar(c: char): char {
    if 'a' <= c <= 'z' then (c as int - 32) as char else c
  }

  /** `str::to_lowercase`, for ASCII letters. */
  function ToLower(s: string): (r: string)
    ensures |r| == |s| && forall k :: 0 <= k < |s| ==> r[k] == LowerChar(s[k])
  {
    seq(|s|, k requires 0 <= k < |s| => LowerChar(s[k]))
  }

  /** `str::to_uppercase`, for ASCII letters. */
  function ToUpper(s: string): (r: string)
    ensures |r| == |s| && forall k :: 0 <= k < |s| ==> r[k] == UpperChar(s[k])
  {
    seq(|s|, k requires 0 <= k < |s| => UpperChar(s[k]))
  }

  predicate IsDigit(c: char) {
    '0' <= c <= '9'
  }

  predicate AllDigits(s: string) {
    forall k :: 0 <= k < |s| ==> IsDigit(s[k])
  }

  function DigitValue(c: char): nat
    requires IsDigit(c)
  {
    c as int - '0' as int
  }

  /** The number a string of decimal digits denotes (leading zeros allowed). */
  function DigitsValue(s: string): nat
    requires AllDigits(s)
  {
    if |s| == 0 then 0 else 10 * DigitsValue(s[..|s| - 1]) + DigitValue(s[|s| - 1])
  }

  function DigitChar(d: nat): (c: char)
    requires d < 10
    ensures IsDigit(c) && DigitValue(c) == d
  {
    ('0' as int + d) as char
  }

  /** `to_string` of an unsigned integer: its shortest decimal form. */
  function NatToString(n: nat): (s: string)
    ensures |s| > 0 && AllDigits(s)
    ensures s[0] != '0' || n == 0
  {
    if n < 10 then [DigitChar(n)] else NatToString(n / 10) + [DigitChar(n % 10)]
  }

  /** At least one decimal digit, with a value no larger than `max`. */
  predicate WellFormedUnsigned(d: string, max: nat) {
    |d| > 0 && AllDigits(d) && DigitsValue(d) <= max
  }

  /** `from_str` of an unsigned integer type whose largest value is `max`:
      an optional `+`, then at least one decimal digit, and a value that fits.
      Whitespace, signs other than a single leading `+`, and empty input fail. */
  function ParseUnsigned(s: string, max: nat): (r: Option<nat>)
    ensures r.Some? ==> r.value <= max
    ensures r.Some? ==> |s| > 0 && forall k :: 0 <= k < |s| ==> IsDigit(s[k]) || (k == 0 && s[k] == '+')
    ensures r.Some? <==> |s| > 0 && WellFormedUnsigned(if s[0] == '+' then s[1..] else s, max)
    ensures r.Some? ==> r.value == DigitsValue(if s[0] == '+' then s[1..] else s)
  {
    if |s| == 0 then None
    else
      var digits := if s[0] == '+' then s[1..] else s;
      if |digits| == 0 || !AllDigits(digits) then None
      else if DigitsValue(digits) <= max then Some(DigitsValue(digits))
      else None
  }

  const U8Max: nat := 0xFF
  const U16Max: nat := 0xFFFF
  const U32Max: nat := 0xFFFF_FFFF

  predicate IsHexDigit(c: char) {
    IsDigit(c) || 'a' <= c <= 'f' || 'A' <= c <= 'F'
  }

  function HexValue(c: char): (v: nat)
    requires IsHexDigit(c)
    ensures v < 16
  {
    if IsDigit(c) then DigitValue(c)
    else if 'a' <= c <= 'f' then c as int - 'a' as int + 10
    else c as int - 'A' as int + 10
  }

  /** `u8::from_str_radix` of the two-character string `hi lo` in base 16.
      As for every unsigned `from_str_radix`, a leading `+` is accepted. */
  function ParseHexPair(hi: char, lo: char): (r: Option<nat>)
    ensures r.Some? ==> r.value <= U8Max
  {
    if hi == '+' then (if IsHexDigit(lo) then Some(HexValue(lo)) else None)
    else if IsHexDigit(hi) && IsHexDigit(lo) then Some(16 * HexValue(hi) + HexValue(lo))
    else None
  }

  // ---------------------------------------------------------------------
  // Lemmas

  /** Decimal printing and parsing are inverse: `n.to_string().parse()` gives
      back `n` whenever `n` fits the target type. */
  lemma {:induction false} DigitsOfNatToString(n: nat)
    ensures DigitsValue(NatToString(n)) == n
  {
    if n >= 10 {
      DigitsOfNatToString(n / 10);
      var s := NatToString(n);
      assert s[..|s| - 1] == NatToString(n / 10);
    }
  }

  lemma ParseNatToString(n: nat, max: nat)
    requires n <= max
    ensures ParseUnsigned(NatToString(n), max) == Some(n)
  {
    DigitsOfNatToString(n);
  }

  /** A leading `+` is accepted: `"+80".parse::<u16>()` is 80. */
  lemma ParsePlusNatToString(n: nat, max: nat)
    requires n <= max
    ensures ParseUnsigned("+" + NatToString(n), max) == Some(n)
  {
    DigitsOfNatToString(n);
    assert ("+" + NatToString(n))[1..] == NatToString(n);
  }

  /** Nothing that contains whitespace parses as a number. */
  lemma ParseRejectsWhitespace(s: string, max: nat, k: nat)
    requires k < |s| && IsWhitespace(s[k])
    ensures ParseUnsigned(s, max) == None
  {
  }

  lemma {:induction false} ContainsAt(s: string, sub: string, i: nat)
    requires i + |sub| <= |s| && s[i..i + |sub|] == sub
    ensures Contains(s, sub)
    decreases i
  {
    if i > 0 {
      assert s[1..][i - 1..i - 1 + |sub|] == sub;
      ContainsAt(s[1..], sub, i - 1);
    }
  }

  /** `Contains` finds exactly the substrings of `s`. */
  lemma {:induction false} ContainsWitness(s: string, sub: string) returns (i: nat)
    requires Contains(s, sub)
    ensures i + |sub| <= |s| && s[i..i + |sub|] == sub
    decreases |s|
  {
    if |sub| <= |s| && s[..|sub|] == sub {
      i := 0;
    } else {
      var j := ContainsWitness(s[1..], sub);
      assert s[1..][j..j + |sub|] == s[j + 1..j + 1 + |sub|];
      i := j + 1;
    }
  }

  /** A text that contains `p + x` contains `x`. */
  lemma ContainsSuffixOf(s: string, p: string, x: string)
    requires Contains(s, p + x)
    ensures Contains(s, x)
  {
    var i := ContainsWitness(s, p + x);
    assert s[i + |p|..i + |p| + |x|] == (p + x)[|p|..];
    ContainsAt(s, x, i + |p|);
  }

  /** Where `pat` does not occur, `replace` changes nothing. */
  lemma {:induction false} ReplaceAbsent(s: string, pat: string, rep: string)
    requires |pat| > 0 && !Contains(s, pat)
    ensures ReplaceAll(s, pat, rep) == s
    decreases |s|
  {
    if |s| >= |pat| {
      ReplaceAbsent(s[1..], pat, rep);
    }
  }

  /** Lower-casing is idempotent. */
  lemma ToLowerIdempotent(s: string)
    ensures ToLower(ToLower(s)) == ToLower(s)
  {
  }

  /** `split` by a single character, then `join` by it, gives the input back. */
  lemma {:induction false} JoinSplit(s: string, c: char)
    ensures Join(Split(s, c), [c]) == s
    decreases |s|
  {
    if |s| > 0 {
      JoinSplit(s[1..], c);
      var rest := Split(s[1..], c);
      if s[0] == c {
        assert Split(s, c) == [""] + rest;
        if |rest| == 1 {
          assert Join(rest, [c]) == rest[0];
        }
      } else {
        assert Split(s, c) == [[s[0]] + rest[0]] + rest[1..];
        if |rest| == 1 {
        } else {
          assert Join(rest, [c]) == rest[0] + [c] + Join(rest[1..], [c]);
        }
      }
    }
  }

  /** Splitting never leaves the separator inside a piece. */
  lemma {:induction false} SplitPiecesAvoid(s: string, c: char)
    ensures forall k :: 0 <= k < |Split(s, c)| ==> c !in Split(s, c)[k]
    decreases |s|
  {
    if |s| > 0 {
      SplitPiecesAvoid(s[1..], c);
      var rest := Split(s[1..], c);
      assert s[..1] == [s[0]];
      if s[0] == c {
        assert Split(s, c) == [""] + rest;
      } else {
        assert Split(s, c) == [[s[0]] + rest[0]] + rest[1..];
        assert c !in [s[0]] + rest[0];
      }
    }
  }

  /** A string without the separator is a single piece. */
  lemma {:induction false} SplitAbsent(s: string, c: char)
    requires c !in s
    ensures Split(s, c) == [s]
    decreases |s|
  {
    if |s| > 0 {
      SplitAbsent(s[1..], c);
      assert s[0] in s;
      assert s[..1] == [s[0]];
      assert [s[0]] + s[1..] == s;
    }
  }

  /** Splitting distributes over a separator: the pieces of `a,b` are the
      pieces of `a` followed by the pieces of `b`. */
  lemma {:induction false} SplitConcat(a: string, c: char, b: string)
    ensures Split(a + [c] + b, c) == Split(a, c) + Split(b, c)
    decreases |a|
  {
    if |a| == 0 {
      assert a + [c] + b == [c] + b;
      assert ([c] + b)[1..] == b;
    } else {
      var s := a + [c] + b;
      SplitConcat(a[1..], c, b);
      assert s[1..] == a[1..] + [c] + b;
      assert s[..1] == [a[0]] && a[..1] == [a[0]];
      var rest := Split(a[1..], c);
      if a[0] == c {
        assert Split(s, c) == [""] + Split(s[1..], c);
        assert Split(a, c) == [""] + rest;
      } else {
        assert Split(s, c) == [[a[0]] + Split(s[1..], c)[0]] + Split(s[1..], c)[1..];
        assert Split(a, c) == [[a[0]] + rest[0]] + rest[1..];
      }
    }
  }

  /** Whitespace in front of a text adds no token. */
  lemma SplitWhitespaceSkip(c: char, s: string)
    requires IsWhitespace(c)
    ensures SplitWhitespace([c] + s) == SplitWhitespace(s)
  {
    assert ([c] + s)[1..] == s;
  }

  /** A text that starts with a non-whitespace character has a first token,
      which starts with that character. */
  lemma SplitWhitespaceFirst(s: string)
    requires s != [] && !IsWhitespace(s[0])
    ensures SplitWhitespace(s) != [] && SplitWhitespace(s)[0] != [] && SplitWhitespace(s)[0][0] == s[0]
  {
    assert TrimStart(s) == s;
  }

  lemma WordEndOfWord(w: string, rest: string)
    requires IsWord(w)
    requires rest == [] || IsWhitespace(rest[0])
    ensures WordEnd(w + rest) == |w|
  {
    var s := w + rest;
    assert forall k :: 0 <= k < |w| ==> s[k] == w[k];
    WordEndUnique(s, |w|);
  }

  /** A word followed by whitespace or the end of the text is the first
      token, and the tokens of the remainder follow it. */
  lemma SplitWhitespaceWord(w: string, rest: string)
    requires IsWord(w)
    requires rest == [] || IsWhitespace(rest[0])
    ensures SplitWhitespace(w + rest) == [w] + SplitWhitespace(rest)
  {
    var s := w + rest;
    assert s[0] == w[0];
    assert TrimStart(s) == s;
    WordEndOfWord(w, rest);
    assert s[..|w|] == w;
    assert s[|w|..] == rest;
  }

  lemma WordEndUnique(s: string, n: nat)
    requires n <= |s|
    requires forall k :: 0 <= k < n ==> !IsWhitespace(s[k])
    requires n < |s| ==> IsWhitespace(s[n])
    ensures WordEnd(s) == n
  {
    var m := WordEnd(s);
    assert !(m < n);
    assert !(m > n);
  }

  /** A prefix one longer is the prefix and the next element. */
  lemma PrefixSnoc<T>(s: seq<T>, i: nat)
    requires i < |s|
    ensures s[..i + 1] == s[..i] + [s[i]]
  {
  }

  /** Appending one element after a concatenation appends it to its second part. */
  lemma AppendSnoc<T>(a: seq<T>, b: seq<T>, x: T)
    ensures a + b + [x] == a + (b + [x])
  {
  }

  /** Text that never holds the pattern's first character is copied by
      `replace` unchanged, whatever follows it. */
  lemma {:induction false} ReplaceSkip(p: string, t: string, pat: string, rep: string)
    requires |pat| > 0 && pat[0] !in p
    ensures ReplaceAll(p + t, pat, rep) == p + ReplaceAll(t, pat, rep)
    decreases |p|
  {
    if p != [] {
      var s := p + t;
      if |s| < |pat| {
        assert ReplaceAll(s, pat, rep) == s;
        assert ReplaceAll(t, pat, rep) == t;
      } else {
        assert s[..|pat|][0] == p[0] != pat[0];
        ReplaceNoMatch(s, pat, rep);
        assert s[1..] == p[1..] + t;
        ReplaceSkip(p[1..], t, pat, rep);
        ConsTail(p, ReplaceAll(t, pat, rep));
      }
    } else {
      assert p + t == t;
    }
  }

  /** `replace` of the separator of a join, when no piece holds the
      separator's first character, is the join with the replacement. */
  lemma {:induction false} ReplaceJoin(ps: seq<string>, pat: string, rep: string)
    requires |pat| > 0 && |ps| > 0
    requires forall k :: 0 <= k < |ps| ==> pat[0] !in ps[k]
    ensures ReplaceAll(Join(ps, pat), pat, rep) == Join(ps, rep)
    decreases |ps|
  {
    if |ps| == 1 {
      ReplaceSkip(ps[0], "", pat, rep);
      assert ps[0] + "" == ps[0];
    } else {
      var rest := Join(ps[1..], pat);
      var s := pat + rest;
      assert Join(ps, pat) == ps[0] + s;
      ReplaceSkip(ps[0], s, pat, rep);
      assert s[..|pat|] == pat && s[|pat|..] == rest;
      ReplaceJoin(ps[1..], pat, rep);
      assert ps[1..][0] == ps[1];
    }
  }

  /** `replace` of a pattern that no separator of a join starts with, when
      its first character occurs neither in the pieces nor later in the
      separator, leaves the join as it is. */
  lemma {:induction false} ReplaceJoinOther(ps: seq<string>, sep: string, pat: string, rep: string)
    requires |pat| > 0 && |ps| > 0 && |pat| <= |sep| && sep[..|pat|] != pat
    requires pat[0] !in sep[1..]
    requires forall k :: 0 <= k < |ps| ==> pat[0] !in ps[k]
    ensures ReplaceAll(Join(ps, sep), pat, rep) == Join(ps, sep)
    decreases |ps|
  {
    if |ps| == 1 {
      ReplaceSkip(ps[0], "", pat, rep);
      assert ps[0] + "" == ps[0];
    } else {
      var rest := Join(ps[1..], sep);
      var s := sep + rest;
      assert Join(ps, sep) == ps[0] + s;
      ReplaceSkip(ps[0], s, pat, rep);
      ReplaceSeparator(sep, rest, pat, rep);
      ReplaceJoinOther(ps[1..], sep, pat, rep);
    }
  }

  /** A separator that does not start with the pattern, and holds the
      pattern's first character at most at its front, is copied as is. */
  lemma ReplaceSeparator(sep: string, rest: string, pat: string, rep: string)
    requires |pat| > 0 && |pat| <= |sep| && sep[..|pat|] != pat && pat[0] !in sep[1..]
    ensures ReplaceAll(sep + rest, pat, rep) == sep + ReplaceAll(rest, pat, rep)
  {
    var s := sep + rest;
    calc {
      ReplaceAll(s, pat, rep);
    == { assert s[..|pat|] == sep[..|pat|]; ReplaceNoMatch(s, pat, rep); }
      [s[0]] + ReplaceAll(s[1..], pat, rep);
    == { assert s[1..] == sep[1..] + rest; }
      [sep[0]] + ReplaceAll(sep[1..] + rest, pat, rep);
    == { ReplaceSkip(sep[1..], rest, pat, rep); }
      [sep[0]] + (sep[1..] + ReplaceAll(rest, pat, rep));
    == { ConsTail(sep, ReplaceAll(rest, pat, rep)); }
      sep + ReplaceAll(rest, pat, rep);
    }
  }

  /** Where the pattern does not start, `replace` keeps the first character. */
  lemma ReplaceNoMatch(s: string, pat: string, rep: string)
    requires |pat| > 0 && |s| >= |pat| && s[..|pat|] != pat
    ensures ReplaceAll(s, pat, rep) == [s[0]] + ReplaceAll(s[1..], pat, rep)
  {
  }

  /** A non-empty sequence is its head followed by its tail. */
  lemma ConsTail<T>(x: seq<T>, b: seq<T>)
    requires |x| > 0
    ensures [x[0]] + (x[1..] + b) == x + b
  {
    assert [x[0]] + x[1..] == x;
  }

  /** A character in neither the pieces nor the separator is not in the join. */
  lemma {:induction false} JoinAvoids(ps: seq<string>, sep: string, c: char)
    requires c !in sep && forall k :: 0 <= k < |ps| ==> c !in ps[k]
    ensures c !in Join(ps, sep)
    decreases |ps|
  {
    if |ps| > 1 {
      JoinAvoids(ps[1..], sep, c);
    }
  }
}
